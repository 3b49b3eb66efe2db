/**
 src/kernel/mutex.cpp as it is written, cut where another task may run.  The waiters are
 the linked list of module LinkedList, and tasks are on it by their own nodes.  Each
 method is proved to compute the step of the same name in module ReentrantLock.
 */
module KernelLock {
  import opened Outcome
  import opened Words
  import L = ReentrantLock
  import opened LinkedList

  class KernelLock {
    var value: bool
    const waiters: List
    var holder: int
    var repeat: nat
    const tasks: array<L.Task>
    var calls: nat
    const nodes: array<Node> // the node in each task_t; its key stands for the task around it

    ghost predicate OfTask(n: Node)
      reads nodes
    {
      0 <= n.key < nodes.Length && nodes[n.key] == n
    }

    ghost predicate Valid()
      reads waiters, waiters.chain, nodes
    {
      && waiters.Valid() && nodes.Length == tasks.Length
      && (forall t :: 0 <= t < nodes.Length ==> OfTask(nodes[t]) && nodes[t].key == t && nodes[t] != waiters.head && nodes[t] != waiters.tail)
      && (forall k :: 0 <= k < |waiters.Nodes()| ==> OfTask(waiters.Nodes()[k]))
    }

    // The tasks on the list.
    ghost function Queue(): (q: seq<nat>)
      requires Valid()
      reads waiters, waiters.chain, nodes
      ensures |q| == |waiters.Nodes()| && forall k :: 0 <= k < |q| ==> q[k] == waiters.Nodes()[k].key && nodes[q[k]] == waiters.Nodes()[k]
    {
      var n := waiters.Nodes();
      seq(|n|, k requires 0 <= k < |n| => n[k].key as nat)
    }

    ghost function View(): L.Lock
      requires Valid()
      reads this, waiters, waiters.chain, nodes, tasks
    {
      L.Lock(value, Queue(), holder, repeat, tasks[..], calls)
    }

    // lockInit, mutexInit; `nodes` are those of the n tasks.
    constructor (nodes: array<Node>)
      requires forall t :: 0 <= t < nodes.Length ==> nodes[t].key == t
      ensures Valid() && View() == L.Init(nodes.Length) && this.nodes == nodes && fresh(tasks) && fresh(waiters)
    {
      value := false;
      waiters := new List();
      holder := -1;
      repeat := 0;
      calls := 0;
      tasks := new L.Task[nodes.Length](_ => L.Task(L.Outside, 0, 0));
      this.nodes := nodes;
    }

    lemma InQueue(t: nat)
      requires Valid() && t < nodes.Length
      ensures nodes[t] in waiters.Nodes() <==> t in Queue()
    {
      if nodes[t] in waiters.Nodes() {
        var k :| 0 <= k < |waiters.Nodes()| && waiters.Nodes()[k] == nodes[t];
        assert Queue()[k] == t;
      }
      if t in Queue() {
        var k :| 0 <= k < |Queue()| && Queue()[k] == t;
        assert waiters.Nodes()[k] == nodes[t];
      }
    }

    method LockAcquire(t: nat)
      requires Valid() && L.At(View(), t, L.Outside)
      modifies tasks
      ensures Valid() && View() == L.Acquire(old(View()), t)
    {
      if holder != t {
        tasks[t] := tasks[t].(pc := L.Entering);
      } else {
        tasks[t] := tasks[t].(pc := L.Raising);
      }
    }

    method Raise(t: nat)
      requires Valid() && L.At(View(), t, L.Raising)
      modifies this`repeat, tasks
      ensures Valid() && View() == L.Raise(old(View()), t)
    {
      repeat := repeat + 1;
      tasks[t] := tasks[t].(pc := L.Outside, depth := tasks[t].depth + 1);
    }

    // taskBlock's listPush of the node of task t.
    method Enqueue(t: nat) returns (r: Result<()>)
      requires Valid() && t < nodes.Length
      modifies waiters, waiters.chain, nodes[t]
      ensures Valid() && (r.Halt? <==> t in old(Queue()))
      ensures r.Halt? ==> r.why == AssertFailed && Queue() == old(Queue())
      ensures r.Ok? ==> Queue() == [t] + old(Queue())
    {
      ghost var q := Queue();
      InQueue(t);
      r := waiters.Push(nodes[t]);
      assert Queue() == if r.Halt? then q else [t] + q;
    }

    // One round of the loop of mutexLock; true if it was the last.
    method MutexLock(t: nat) returns (r: Result<bool>)
      requires Valid() && (L.At(View(), t, L.Entering) || L.At(View(), t, L.Woken))
      modifies this`value, this`calls, tasks, waiters, waiters.chain, nodes[t]
      ensures Valid()
      ensures r.Halt? ==> L.MutexLock(old(View()), t) == Halt(r.why)
      ensures r.Ok? ==> L.MutexLock(old(View()), t) == Ok(View()) && (r.value <==> L.At(View(), t, L.Took))
    {
      if value {
        var pushed := Enqueue(t);
        if pushed.Halt? {
          return Halt(pushed.why);
        }
        tasks[t] := tasks[t].(pc := L.Queued, since := calls);
        calls := calls + 1;
        return Ok(false);
      }
      value := true;
      tasks[t] := tasks[t].(pc := L.Took);
      return Ok(true);
    }

    method SetHolder(t: nat)
      requires Valid() && L.At(View(), t, L.Took)
      modifies this`holder, tasks
      ensures Valid() && View() == L.SetHolder(old(View()), t)
    {
      holder := t;
      tasks[t] := tasks[t].(pc := L.Naming);
    }

    method CheckZero(t: nat) returns (r: Result<()>)
      requires Valid() && L.At(View(), t, L.Naming)
      modifies tasks
      ensures Valid()
      ensures r.Halt? ==> L.CheckZero(old(View()), t) == Halt(r.why)
      ensures r.Ok? ==> L.CheckZero(old(View()), t) == Ok(View())
    {
      if repeat != 0 {
        return Halt(AssertFailed);
      }
      tasks[t] := tasks[t].(pc := L.Zeroed);
      return Ok(());
    }

    method SetRepeat(t: nat)
      requires Valid() && L.At(View(), t, L.Zeroed)
      modifies this`repeat, tasks
      ensures Valid() && View() == L.SetRepeat(old(View()), t)
    {
      repeat := 1;
      tasks[t] := tasks[t].(pc := L.Outside, depth := 1);
    }

    method LockRelease(t: nat) returns (r: Result<()>)
      requires Valid() && L.At(View(), t, L.Outside)
      modifies tasks
      ensures Valid()
      ensures r.Halt? ==> L.Release(old(View()), t) == Halt(r.why)
      ensures r.Ok? ==> L.Release(old(View()), t) == Ok(View())
    {
      if holder != t {
        return Halt(AssertFailed);
      }
      tasks[t] := tasks[t].(pc := L.Checked, depth := if tasks[t].depth > 0 then tasks[t].depth - 1 else 0);
      return Ok(());
    }

    method TestNested(t: nat)
      requires Valid() && L.At(View(), t, L.Checked)
      modifies tasks
      ensures Valid() && View() == L.TestNested(old(View()), t)
    {
      tasks[t] := tasks[t].(pc := if repeat > 1 then L.Lowering else L.Single);
    }

    method Lower(t: nat)
      requires Valid() && L.At(View(), t, L.Lowering)
      modifies this`repeat, tasks
      ensures Valid() && View() == L.Lower(old(View()), t)
    {
      repeat := if repeat > 0 then repeat - 1 else TWO32 - 1;
      tasks[t] := tasks[t].(pc := L.Outside);
    }

    method CheckOne(t: nat) returns (r: Result<()>)
      requires Valid() && L.At(View(), t, L.Single)
      modifies tasks
      ensures Valid()
      ensures r.Halt? ==> L.CheckOne(old(View()), t) == Halt(r.why)
      ensures r.Ok? ==> L.CheckOne(old(View()), t) == Ok(View())
    {
      if repeat != 1 {
        return Halt(AssertFailed);
      }
      tasks[t] := tasks[t].(pc := L.Last);
      return Ok(());
    }

    method ClearHolder(t: nat)
      requires Valid() && L.At(View(), t, L.Last)
      modifies this`holder, tasks
      ensures Valid() && View() == L.ClearHolder(old(View()), t)
    {
      holder := -1;
      tasks[t] := tasks[t].(pc := L.Clearing);
    }

    method ClearRepeat(t: nat)
      requires Valid() && L.At(View(), t, L.Clearing)
      modifies this`repeat, tasks
      ensures Valid() && View() == L.ClearRepeat(old(View()), t)
    {
      repeat := 0;
      tasks[t] := tasks[t].(pc := L.Cleared);
    }

    // The task in front of the tail is taken off the list and made ready.
    method MutexUnlock(t: nat) returns (r: Result<()>)
      requires Valid() && L.At(View(), t, L.Cleared)
      modifies this`value, tasks, waiters, waiters.chain
      ensures Valid()
      ensures r.Halt? ==> L.MutexUnlock(old(View()), t) == Halt(r.why)
      ensures r.Ok? ==> L.MutexUnlock(old(View()), t) == Ok(View())
    {
      ghost var l := View();
      if !value {
        return Halt(AssertFailed);
      }
      value := false;
      tasks[t] := tasks[t].(pc := L.Outside);
      var empty := waiters.Empty();
      if !empty {
        var taken := waiters.Popback();
        var task := taken.value.key;
        assert task == l.waiters[|l.waiters| - 1];
        tasks[task] := tasks[task].(pc := L.Woken);
        assert Queue() == l.waiters[..|l.waiters| - 1];
      }
      return Ok(());
    }
  }
}
