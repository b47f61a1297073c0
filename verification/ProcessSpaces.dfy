/** EXEC and EXIT together with the address spaces of the processes: the process table over kernel memory. */
module ProcessSpaces {
  import opened Options
  import opened Words
  import opened Paging
  import opened AddressSpaces
  import opened KernelHeap
  import opened ProcessMemory
  import opened Processes

  /** The process table, kernel memory, and the address space of each process by its place in creation. */
  datatype Machine = Machine(sys: Sys, kern: Kern, space: map<nat, u32>)

  /** The live address spaces are exactly the kernel's and one for each task in the list, all different. */
  ghost predicate OnePerTask(space: map<nat, u32>, tasks: seq<nat>, live: set<u32>, kernelSpace: u32)
  {
    && (forall id :: id in space <==> id in tasks)
    && (forall a, b :: a in space && b in space && space[a] == space[b] ==> a == b)
    && (forall id :: id in space ==> space[id] != kernelSpace)
    && forall v :: v in live <==> v == kernelSpace || OfTask(space, v)
  }

  ghost predicate OfTask(space: map<nat, u32>, v: u32)
  {
    exists id :: id in space && space[id] == v
  }

  ghost predicate MachineInv(m: Machine, kernelSpace: u32)
  {
    && SysInv(m.sys) && Inv(m.kern) && OnePerTask(m.space, m.sys.tasks, Flats(m.kern).Keys, kernelSpace)
    && KernelMapped(Flats(m.kern), kernelSpace)
  }

  /** The kernel's own space maps every address to itself, present, writable and open to users. */
  ghost predicate KernelMapped(f: map<u32, FlatMap>, kernelSpace: u32)
  {
    kernelSpace in f && IdentitySpace(f[kernelSpace]) && OrEntries(f[kernelSpace], 7)
  }

  // ---------- What the kernel does in between ----------

  /** Steps that touch no space but possibly one: other work, and mappings in that space. */
  predicate Allowed(e: Event, own: Option<u32>)
  {
    e.Other? || ((e.Map? || e.MapRange?) && own == Some(e.v))
  }

  ghost predicate WorkRun(states: seq<Kern>, events: seq<Event>, own: Option<u32>)
  {
    && |states| == |events| + 1
    && forall i :: 0 <= i < |events| ==> AddressSpaces.Step(states[i], events[i], states[i + 1]) && Allowed(events[i], own)
  }

  ghost predicate Work(k: Kern, k': Kern, own: Option<u32>)
  {
    exists states: seq<Kern>, events: seq<Event> ::
      WorkRun(states, events, own) && states[0] == k && states[|events|] == k'
  }

  /** The same spaces, and the same translations in all but possibly one. */
  ghost predicate SameBut(f: map<u32, FlatMap>, g: map<u32, FlatMap>, own: Option<u32>)
  {
    g.Keys == f.Keys && forall v :: v in f && own != Some(v) ==> g[v] == f[v]
  }

  lemma WorkKeeps(k: Kern, k': Kern, own: Option<u32>)
    requires Inv(k) && Work(k, k', own)
    ensures Inv(k') && SameBut(Flats(k), Flats(k'), own)
  {
    var states: seq<Kern>, events: seq<Event> :|
      WorkRun(states, events, own) && states[0] == k && states[|events|] == k';
    RunKeeps(states, events, own);
  }

  lemma {:induction false} RunKeeps(states: seq<Kern>, events: seq<Event>, own: Option<u32>)
    requires WorkRun(states, events, own) && Inv(states[0])
    ensures Inv(states[|events|]) && SameBut(Flats(states[0]), Flats(states[|events|]), own)
    decreases |events|
  {
    hide Inv, AddressSpaces.Step, Allowed, AbstractStep, MapsIn;
    var n := |events|;
    if n > 0 {
      RunPrefix(states, events, own);
      RunKeeps(states[..n], events[..n - 1], own);
      StepKeeps(states[n - 1], events[n - 1], states[n]);
      StepSame(Flats(states[n - 1]), events[n - 1], own);
    }
  }

  lemma RunPrefix(states: seq<Kern>, events: seq<Event>, own: Option<u32>)
    requires WorkRun(states, events, own) && events != []
    ensures var n := |events|;
            && WorkRun(states[..n], events[..n - 1], own) && states[..n][0] == states[0]
            && states[..n][n - 1] == states[n - 1] && Allowed(events[n - 1], own)
            && AddressSpaces.Step(states[n - 1], events[n - 1], states[n])
  {}

  lemma StepSame(f: map<u32, FlatMap>, e: Event, own: Option<u32>)
    requires MapsIn(f, e) && Allowed(e, own)
    ensures SameBut(f, AbstractStep(f, e), own)
  {}

  // ---------- EXEC and EXIT ----------

  /** A new space at v, and whatever is done before it and, in it, after it. */
  ghost predicate Begun(k: Kern, k': Kern, v: u32)
  {
    exists a: Kern, b: Kern, flags: byte :: Work(k, a, None) && Created(a, flags, v, b) && Work(b, k', Some(v))
  }

  /** The space at v is destroyed, as the code does it, with other work before and after. */
  ghost predicate Ended(k: Kern, k': Kern, v: u32)
  {
    exists a: Kern, b: Kern :: Work(k, a, None) && Destroyed(a, v, b, false) && Work(b, k', None)
  }

  /** EXEC: a process with a space of its own; or a failure, before or after that space was created. */
  ghost predicate ExecStep(m: Machine, n: Machine, ok: bool)
  {
    && HasFreeSlot(m.sys) && n.sys == Exec(m.sys, ok)
    && if ok then exists v :: Begun(m.kern, n.kern, v) && n.space == m.space[m.sys.created := v]
       else n.space == m.space && (Work(m.kern, n.kern, None) || Undone(m.kern, n.kern))
  }

  ghost predicate Undone(k: Kern, k': Kern)
  {
    exists a: Kern, v :: Begun(k, a, v) && Ended(a, k', v)
  }

  /** EXIT: the current process's space is destroyed with it. */
  ghost predicate ExitStep(m: Machine, n: Machine)
  {
    && m.sys.current != 0 && m.sys.current in m.space && n.sys == Exit(m.sys)
    && Ended(m.kern, n.kern, m.space[m.sys.current]) && n.space == m.space - {m.sys.current}
  }

  lemma BegunKeeps(k: Kern, k': Kern, v: u32)
    requires Inv(k) && Begun(k, k', v)
    ensures Inv(k') && OneMore(Flats(k), Flats(k'), v)
  {
    var a: Kern, b: Kern, flags: byte :| Work(k, a, None) && Created(a, flags, v, b) && Work(b, k', Some(v));
    WorkKeeps(k, a, None);
    CreatedNew(a, flags, v, b);
    WorkKeeps(b, k', Some(v));
    AddedBetween(Flats(k), Flats(a), Flats(b), Flats(k'), v, Identity(flags));
  }

  lemma CreatedNew(a: Kern, flags: byte, v: u32, b: Kern)
    requires Inv(a) && Created(a, flags, v, b)
    ensures Inv(b) && v !in Flats(a) && Flats(b) == Flats(a)[v := Identity(flags)]
  {
    CreatedKeeps(a, flags, v, b);
  }

  /** One space more, and the translations of all others as before. */
  ghost predicate OneMore(f: map<u32, FlatMap>, g: map<u32, FlatMap>, v: u32)
  {
    v !in f && g.Keys == f.Keys + {v} && forall w :: w in f ==> g[w] == f[w]
  }

  ghost predicate OneLess(f: map<u32, FlatMap>, g: map<u32, FlatMap>, v: u32)
  {
    v in f && g.Keys == f.Keys - {v} && forall w :: w in g ==> g[w] == f[w]
  }

  lemma AddedBetween(f: map<u32, FlatMap>, a: map<u32, FlatMap>, b: map<u32, FlatMap>, g: map<u32, FlatMap>,
                     v: u32, x: FlatMap)
    requires SameBut(f, a, None) && v !in a && b == a[v := x] && SameBut(b, g, Some(v))
    ensures OneMore(f, g, v)
  {}

  lemma EndedKeeps(k: Kern, k': Kern, v: u32)
    requires Inv(k) && Ended(k, k', v)
    ensures Inv(k') && OneLess(Flats(k), Flats(k'), v)
  {
    var a: Kern, b: Kern :| Work(k, a, None) && Destroyed(a, v, b, false) && Work(b, k', None);
    WorkKeeps(k, a, None);
    DestroyedOld(a, v, b);
    WorkKeeps(b, k', None);
    RemovedBetween(Flats(k), Flats(a), Flats(b), Flats(k'), v);
  }

  lemma DestroyedOld(a: Kern, v: u32, b: Kern)
    requires Inv(a) && Destroyed(a, v, b, false)
    ensures Inv(b) && v in Flats(a) && Flats(b) == Flats(a) - {v}
  {
    DestroyedKeeps(a, v, b, false);
  }

  lemma RemovedBetween(f: map<u32, FlatMap>, a: map<u32, FlatMap>, b: map<u32, FlatMap>, g: map<u32, FlatMap>, v: u32)
    requires SameBut(f, a, None) && v in a && b == a - {v} && SameBut(b, g, None)
    ensures OneLess(f, g, v)
  {}

  /** EXEC leaves the translation of every process and of the kernel alone; only success adds a space. */
  lemma ExecKeepsSpaces(m: Machine, n: Machine, ok: bool, kernelSpace: u32)
    requires MachineInv(m, kernelSpace) && ExecStep(m, n, ok)
    ensures MachineInv(n, kernelSpace)
    ensures if ok then OneMore(Flats(m.kern), Flats(n.kern), n.space[m.sys.created])
            else SameBut(Flats(m.kern), Flats(n.kern), None)
  {
    hide IdentitySpace, OrEntries, SysInv;
    if ok {
      var v :| Begun(m.kern, n.kern, v) && n.space == m.space[m.sys.created := v];
      BegunKeeps(m.kern, n.kern, v);
      ExecKeeps(m.sys, true);
      ExecAdds(m.sys, m.space, Flats(m.kern).Keys, kernelSpace, v);
    } else {
      FailureSame(m.kern, n.kern);
    }
  }

  lemma ExecAdds(s: Sys, space: map<nat, u32>, live: set<u32>, kernelSpace: u32, v: u32)
    requires SysInv(s) && HasFreeSlot(s) && OnePerTask(space, s.tasks, live, kernelSpace) && v !in live
    ensures OnePerTask(space[s.created := v], Exec(s, true).tasks, live + {v}, kernelSpace)
  {
    assert s.created !in s.tasks && Exec(s, true).tasks == s.tasks + [s.created];
    OneMoreTask(space, s.tasks, live, kernelSpace, s.created, v);
  }

  lemma FailureSame(k: Kern, k': Kern)
    requires Inv(k) && (Work(k, k', None) || Undone(k, k'))
    ensures Inv(k') && SameBut(Flats(k), Flats(k'), None)
  {
    if Work(k, k', None) {
      WorkKeeps(k, k', None);
    } else {
      var a: Kern, v :| Begun(k, a, v) && Ended(a, k', v);
      BegunKeeps(k, a, v);
      EndedKeeps(a, k', v);
      AddedThenRemoved(Flats(k), Flats(a), Flats(k'), v);
    }
  }

  lemma AddedThenRemoved(f: map<u32, FlatMap>, a: map<u32, FlatMap>, g: map<u32, FlatMap>, v: u32)
    requires OneMore(f, a, v) && OneLess(a, g, v)
    ensures SameBut(f, g, None)
  {
    assert g.Keys == f.Keys;
  }

  lemma OneMoreTask(space: map<nat, u32>, tasks: seq<nat>, live: set<u32>, kernelSpace: u32, id: nat, v: u32)
    requires OnePerTask(space, tasks, live, kernelSpace) && id !in tasks && v !in live
    ensures OnePerTask(space[id := v], tasks + [id], live + {v}, kernelSpace)
  {
    var more := space[id := v];
    forall w
      ensures OfTask(more, w) <==> OfTask(space, w) || w == v
    {
      if OfTask(space, w) {
        var i :| i in space && space[i] == w;
        assert more[i] == w;
      }
      if w == v {
        assert more[id] == w;
      }
    }
    forall i | i in space
      ensures space[i] != v
    {
      assert OfTask(space, space[i]);
    }
  }

  /** EXIT removes the space of the process that exits, and leaves every other translation alone. */
  lemma ExitKeepsSpaces(m: Machine, n: Machine, kernelSpace: u32)
    requires MachineInv(m, kernelSpace) && ExitStep(m, n)
    ensures MachineInv(n, kernelSpace)
    ensures OneLess(Flats(m.kern), Flats(n.kern), m.space[m.sys.current])
  {
    ExitKeeps(m.sys);
    EndedKeeps(m.kern, n.kern, m.space[m.sys.current]);
    RemoveKeeps(m.sys.tasks, m.sys.current);
    OneTaskLess(m.space, m.sys.tasks, n.sys.tasks, Flats(m.kern).Keys, kernelSpace, m.sys.current);
  }

  lemma OneTaskLess(space: map<nat, u32>, tasks: seq<nat>, fewer: seq<nat>, live: set<u32>, kernelSpace: u32, id: nat)
    requires OnePerTask(space, tasks, live, kernelSpace) && id in space
    requires forall i :: i in fewer <==> i in tasks && i != id
    ensures OnePerTask(space - {id}, fewer, live - {space[id]}, kernelSpace)
  {
    var less := space - {id};
    forall w
      ensures OfTask(less, w) <==> OfTask(space, w) && w != space[id]
    {
      if OfTask(space, w) && w != space[id] {
        var i :| i in space && space[i] == w;
        assert i in less && less[i] == w;
      }
    }
  }

  /** Between the calls the running process works: it may allocate, which maps pages in its own space. */
  ghost predicate WorkStep(m: Machine, n: Machine)
  {
    && m.sys.current in m.space && n.sys == m.sys && n.space == m.space
    && Work(m.kern, n.kern, Some(m.space[m.sys.current]))
  }

  lemma WorkStepKeepsSpaces(m: Machine, n: Machine, kernelSpace: u32)
    requires MachineInv(m, kernelSpace) && WorkStep(m, n)
    ensures MachineInv(n, kernelSpace)
    ensures SameBut(Flats(m.kern), Flats(n.kern), Some(m.space[m.sys.current]))
  {
    WorkKeeps(m.kern, n.kern, Some(m.space[m.sys.current]));
  }

  /** MALLOC is such work, whether memory was found or not. */
  lemma MallocIsWork(k: Kern, k': Kern, own: u32, size: u32, base: u32)
    requires Inv(k) && Inv(k') && own in k.spaces && Allocated(k, k', own, size, base)
    ensures Work(k, k', Some(own))
  {
    var k1 := AfterKzalloc(k, size);
    var e := MapRange(own, base, base, EndOf(base, size), ACCESS);
    HeapCallsAreSteps(k, size, base);
    WorkOne(k, Other, k1, Some(own));
    assert AddressSpaces.Step(k1, e, k');
    WorkOne(k1, e, k', Some(own));
    WorkThen(k, k1, k', Some(own));
  }

  lemma WorkOne(k: Kern, e: Event, k': Kern, own: Option<u32>)
    requires AddressSpaces.Step(k, e, k') && Allowed(e, own)
    ensures Work(k, k', own)
  {
    var states, events := [k, k'], [e];
    assert WorkRun(states, events, own) && states[0] == k && states[|events|] == k';
  }

  lemma WorkThen(k: Kern, a: Kern, b: Kern, own: Option<u32>)
    requires Work(k, a, own) && Work(a, b, own)
    ensures Work(k, b, own)
  {
    var s: seq<Kern>, e: seq<Event> :| WorkRun(s, e, own) && s[0] == k && s[|e|] == a;
    var t: seq<Kern>, f: seq<Event> :| WorkRun(t, f, own) && t[0] == a && t[|f|] == b;
    RunJoin(s, e, t, f, own);
    var states, events := s + t[1..], e + f;
    assert WorkRun(states, events, own) && states[0] == k && states[|events|] == b;
  }

  lemma RunJoin(s: seq<Kern>, e: seq<Event>, t: seq<Kern>, f: seq<Event>, own: Option<u32>)
    requires WorkRun(s, e, own) && WorkRun(t, f, own) && s[|e|] == t[0]
    ensures WorkRun(s + t[1..], e + f, own) && (s + t[1..])[0] == s[0] && (s + t[1..])[|e + f|] == t[|f|]
  {
    var states, events := s + t[1..], e + f;
    forall i | 0 <= i < |events|
      ensures AddressSpaces.Step(states[i], events[i], states[i + 1]) && Allowed(events[i], own)
    {
      if i < |e| {
        assert states[i] == s[i] && events[i] == e[i] && states[i + 1] == s[i + 1];
      } else {
        assert states[i] == t[i - |e|] && events[i] == f[i - |e|] && states[i + 1] == t[i - |e| + 1];
      }
    }
  }

  // ---------- Runs ----------

  datatype MachineCall = Working | Syscall(call: Call)

  ghost predicate MachineRun(states: seq<Machine>, calls: seq<MachineCall>, kernelSpace: u32)
  {
    && |states| == |calls| + 1 && MachineInv(states[0], kernelSpace) && states[0].sys == Booted()
    && forall i :: 0 <= i < |calls| ==> MachineStep(states[i], calls[i], states[i + 1])
  }

  ghost predicate MachineStep(m: Machine, c: MachineCall, n: Machine)
  {
    match c
    case Working => WorkStep(m, n)
    case Syscall(ExecCall(ok)) => ExecStep(m, n, ok)
    case Syscall(ExitCall) => ExitStep(m, n)
  }

  /** In every state of every run the live spaces are the kernel's and those of the listed tasks. */
  lemma {:induction false} SpacesFollowTasks(states: seq<Machine>, calls: seq<MachineCall>, kernelSpace: u32, i: nat)
    requires MachineRun(states, calls, kernelSpace) && i < |states|
    ensures MachineInv(states[i], kernelSpace)
  {
    hide MachineInv, MachineStep, Isolated;
    if i > 0 {
      SpacesFollowTasks(states, calls, kernelSpace, i - 1);
      StepIsolates(states[i - 1], calls[i - 1], states[i], kernelSpace);
    }
  }

  /** The translations of the kernel, and of every process but the one that works, are what they were. */
  ghost predicate Isolated(m: Machine, c: MachineCall, n: Machine, kernelSpace: u32)
  {
    && kernelSpace in Flats(m.kern) && kernelSpace in Flats(n.kern)
    && Flats(n.kern)[kernelSpace] == Flats(m.kern)[kernelSpace]
    && forall id :: id in m.space && id in n.space ==>
         && n.space[id] == m.space[id] && n.space[id] in Flats(n.kern) && m.space[id] in Flats(m.kern)
         && ((c.Working? && id == m.sys.current) || Flats(n.kern)[n.space[id]] == Flats(m.kern)[m.space[id]])
  }

  /** Every step of a run keeps the invariant and isolates the processes from one another. */
  lemma StepIsolates(m: Machine, c: MachineCall, n: Machine, kernelSpace: u32)
    requires MachineInv(m, kernelSpace) && MachineStep(m, c, n)
    ensures MachineInv(n, kernelSpace) && Isolated(m, c, n, kernelSpace)
  {
    SpacesLive(m, kernelSpace);
    match c {
      case Working => WorkStepKeepsSpaces(m, n, kernelSpace);
      case Syscall(ExecCall(ok)) => ExecKeepsSpaces(m, n, ok, kernelSpace);
      case Syscall(ExitCall) => ExitKeepsSpaces(m, n, kernelSpace);
    }
    SpacesLive(n, kernelSpace);
  }

  lemma SpacesLive(m: Machine, kernelSpace: u32)
    requires MachineInv(m, kernelSpace)
    ensures kernelSpace in Flats(m.kern)
    ensures forall id :: id in m.space ==> m.space[id] in Flats(m.kern) && m.space[id] != kernelSpace
    ensures m.sys.created !in m.space
  {
    forall id | id in m.space
      ensures m.space[id] in Flats(m.kern)
    {
      assert OfTask(m.space, m.space[id]);
    }
  }
}
