/** The list of tasks: doubly linked nodes with a head, a tail and a current task. */
module Tasks {

  class Task {
    var next: Task?
    var prev: Task?
    /** The process the task belongs to, by its place in the order of creation. */
    ghost const owner: nat

    constructor (ghost owner: nat)
      ensures next == null && prev == null && this.owner == owner
    {
      next, prev := null, null;
      this.owner := owner;
    }
  }

  ghost predicate NoRepeats<T>(s: seq<T>)
  {
    forall i, j :: 0 <= i < j < |s| ==> s[i] != s[j]
  }

  /** s without its k-th element. */
  function Without<T>(s: seq<T>, k: nat): seq<T>
    requires k < |s|
  {
    s[..k] + s[k + 1..]
  }

  lemma WithoutAt<T>(s: seq<T>, k: nat)
    requires k < |s|
    ensures |Without(s, k)| == |s| - 1 && (NoRepeats(s) ==> NoRepeats(Without(s, k)))
    ensures forall i :: 0 <= i < |s| - 1 ==> Without(s, k)[i] == s[if i < k then i else i + 1]
  {}

  class TaskList {
    var head: Task?
    var tail: Task?
    var cur: Task?

    /** The live tasks in the order in which they were added. */
    ghost var tasks: seq<Task>

    /**
      Following `next` from the head to the tail lists exactly the live tasks, and `prev` undoes it.
      The tail's own `next` and the head's own `prev` may be stale.
     */
    ghost predicate Valid()
      reads this, tasks
    {
      && NoRepeats(tasks)
      && (tasks == [] ==> head == null)
      && (tasks != [] ==> head == tasks[0] && tail == tasks[|tasks| - 1])
      && (forall i {:trigger tasks[i].next} :: 0 <= i < |tasks| - 1 ==> tasks[i].next == tasks[i + 1])
      && (forall i {:trigger tasks[i].prev} :: 1 <= i < |tasks| ==> tasks[i].prev == tasks[i - 1])
    }

    constructor ()
      ensures Valid() && tasks == [] && cur == null && tail == null
    {
      head, tail, cur := null, null, null;
      tasks := [];
    }

    /** Appends a task that has just been allocated and zeroed. */
    method Add(t: Task)
      requires Valid() && t !in tasks && t.next == null && t.prev == null
      modifies this, t, tail
      ensures Valid() && tasks == old(tasks) + [t]
      ensures cur == if old(tasks) == [] then t else old(cur)
      ensures t.next == null
    {
      if head == null {
        head := t;
        tail := t;
        cur := t;
      } else {
        tail.next := t;
        t.prev := tail;
        tail := tail.next;
      }
      tasks := tasks + [t];
    }

    /**
      Unlinks the k-th task. The list stays a list of the other tasks exactly when the task was not
      the only one, or its `next` was null: a sole task's `next` is stale after a later task was deleted.
     */
    method Delete(t: Task, ghost k: nat)
      requires Valid() && k < |tasks| && t == tasks[k]
      modifies this, tasks
      ensures tasks == Without(old(tasks), k)
      ensures Valid() <==> |old(tasks)| > 1 || old(t.next) == null
      ensures cur == if old(cur) == t then old(t.next) else old(cur)
      ensures forall i {:trigger old(tasks)[i].next} :: 0 <= i < |old(tasks)| ==>
                old(tasks)[i].next ==
                if 0 < k < |old(tasks)| - 1 && i == k - 1 then old(tasks[k + 1]) else old(tasks[i].next)
      ensures forall i {:trigger old(tasks)[i].prev} :: 0 <= i < |old(tasks)| ==>
                old(tasks)[i].prev ==
                if 0 < k < |old(tasks)| - 1 && i == k + 1 then old(tasks[k - 1]) else old(tasks[i].prev)
    {
      ghost var n := |tasks|;
      WithoutAt(tasks, k);
      assert k < n - 1 ==> t.next == tasks[k + 1];
      assert k > 0 ==> t.prev == tasks[k - 1];
      if t == head {
        head := head.next;
      } else if t == tail {
        tail := tail.prev;
      } else {
        assert 0 < k < n - 1;
        t.prev.next := t.next;
        t.next.prev := t.prev;
      }
      if t == cur {
        cur := t.next;
      }
      tasks := Without(tasks, k);
    }
  }

  /**
    Two tasks, the second deleted and then the first: the first one's `next` is stale, so the empty list keeps
    a head, and it is no list any more. The next task would be linked behind a task that is gone.
   */
  method StaleHead() returns (list: TaskList)
    ensures fresh(list) && list.tasks == [] && list.head != null && !list.Valid()
  {
    list := new TaskList();
    var a := new Task(0);
    var b := new Task(1);
    list.Add(a);
    list.Add(b);
    assert list.tasks == [a, b] && list.tasks[0].next == list.tasks[1];
    list.Delete(b, 1);
    assert list.tasks == [a] && a.next == b;
    list.Delete(a, 0);
  }
}
