/**
 src/kernel/task.cpp as it is written: the task table is an array, the lists are
 fields, the searches are loops.  Every method is proved to compute the function of
 the same name in module Scheduler.
 */
module TaskTable {
  import opened Outcome
  import opened Lists
  import opened Words
  import S = Scheduler

  class TaskTable {
    const tasks: array<S.Slot>
    var current: nat
    var lists: seq<seq<nat>>
    var sleepList: seq<nat>
    var jiffies: nat
    var next: nat
    ghost var reaped: seq<nat>

    ghost function View(): S.Sys
      reads this, tasks
    {
      S.Sys(tasks[..], current, lists, sleepList, jiffies, next, reaped)
    }

    ghost predicate Valid()
      reads this, tasks
    {
      tasks.Length == S.NR_TASKS && |lists| > 0 && S.Is(View(), current)
    }

    method IsLinked(i: nat) returns (r: bool)
      ensures r == S.Linked(View(), i)
    {
      if i in sleepList {
        return true;
      }
      var k := 0;
      while k < |lists|
        invariant 0 <= k <= |lists| && forall j :: 0 <= j < k ==> i !in lists[j]
      {
        if i in lists[k] {
          return true;
        }
        k := k + 1;
      }
      return false;
    }

    // taskSearch(TASK_READY).
    method TaskSearch() returns (found: int)
      requires Valid()
      ensures found == S.Search(tasks[..], current, S.NR_TASKS)
    {
      found := -1;
      var i := 0;
      while i < S.NR_TASKS
        invariant 0 <= i <= S.NR_TASKS && found == S.Search(tasks[..], current, i)
      {
        var ptr := tasks[i];
        if ptr.Used? && ptr.task.state == S.Ready && i != current {
          if found == -1 || tasks[found].task.ticks < ptr.task.ticks || ptr.task.jiffies < tasks[found].task.jiffies {
            found := i;
          }
        }
        i := i + 1;
      }
    }

    // The idle task, slot 0, is the fallback.
    method Schedule()
      requires Valid() && tasks[0].Used?
      modifies this`current, tasks
      ensures S.Schedule(old(View())) == Ok(View())
    {
      ghost var s := View();
      var found := TaskSearch();
      var nxt := if found == -1 then 0 else found;
      var t := tasks[current].task;
      if t.state == S.Running {
        t := t.(state := S.Ready);
      }
      if t.ticks == 0 {
        t := t.(ticks := t.priority);
      }
      tasks[current] := S.Used(t);
      tasks[nxt] := S.Used(tasks[nxt].task.(state := S.Running));
      current := nxt;
      assert tasks[..] == S.Schedule(s).value.tasks;
    }

    method TaskBlock(l: nat, state: S.State) returns (r: Result<()>)
      requires Valid() && tasks[0].Used? && l < |lists|
      modifies this, tasks
      ensures r.Halt? ==> S.Block(old(View()), l, state) == Halt(r.why)
      ensures r.Ok? ==> S.Block(old(View()), l, state) == Ok(View())
    {
      var linked := IsLinked(current);
      if linked || state == S.Ready || state == S.Running {
        return Halt(AssertFailed);
      }
      lists := lists[l := [current] + lists[l]];
      tasks[current] := S.Used(tasks[current].task.(state := state));
      Schedule();
      return Ok(());
    }

    method TaskUnblock(i: nat) returns (r: Result<()>)
      requires Valid() && S.Is(View(), i)
      modifies this, tasks
      ensures r.Halt? ==> S.Unblock(old(View()), i) == Halt(r.why)
      ensures r.Ok? ==> S.Unblock(old(View()), i) == Ok(View())
    {
      var linked := IsLinked(i);
      if !linked {
        return Halt(AssertFailed);
      }
      lists := S.DropAll(lists, i);
      sleepList := Drop(sleepList, i);
      tasks[i] := S.Used(tasks[i].task.(state := S.Ready));
      return Ok(());
    }

    method TaskSleep(ms: uint32) returns (r: Result<()>)
      requires Valid() && tasks[0].Used?
      requires forall j :: 0 <= j < |sleepList| ==> S.Is(View(), sleepList[j])
      modifies this, tasks
      ensures r.Halt? ==> S.Sleep(old(View()), ms) == Halt(r.why)
      ensures r.Ok? ==> S.Sleep(old(View()), ms) == Ok(View())
    {
      var linked := IsLinked(current);
      if linked {
        return Halt(AssertFailed);
      }
      ghost var s := View();
      var wake := jiffies + if ms / S.JIFFY > 0 then ms / S.JIFFY else 1;
      tasks[current] := S.Used(tasks[current].task.(ticks := S32(wake), state := S.Sleeping));
      InsertSort(current);
      assert View() == S.Asleep(s, S.WakeTick(s, ms)) by {
        assert tasks[..] == S.Asleep(s, S.WakeTick(s, ms)).tasks;
      }
      Schedule();
      return Ok(());
    }

    // listInsertSort into the sleep list: before the first sleeper with a larger key.
    method InsertSort(i: nat)
      requires S.Is(View(), i) && forall j :: 0 <= j < |sleepList| ==> S.Is(View(), sleepList[j])
      modifies this`sleepList
      ensures sleepList == S.InsertSorted(old(View()), old(sleepList), i)
    {
      var k := 0;
      while k < |sleepList| && tasks[sleepList[k]].task.ticks <= tasks[i].task.ticks
        invariant 0 <= k <= |sleepList|
        invariant forall j :: 0 <= j < |sleepList| ==> S.Is(View(), sleepList[j])
        invariant forall j :: 0 <= j < k ==> S.TicksOf(View(), sleepList[j]) <= S.TicksOf(View(), i)
      {
        k := k + 1;
      }
      InsertSplit(View(), sleepList, i, k);
      sleepList := sleepList[..k] + [i] + sleepList[k..];
    }

    // taskWakeup.
    method TaskWakeup()
      requires Valid() && forall x :: x in sleepList ==> S.Is(View(), x)
      modifies this, tasks
      ensures View() == S.Wakeup(old(View())) && Valid()
    {
      ghost var s := View();
      while sleepList != [] && U32(tasks[sleepList[0]].task.ticks) <= jiffies
        invariant Valid() && (forall x :: x in sleepList ==> S.Is(View(), x))
        invariant S.Wakeup(s) == S.Wakeup(View())
        decreases |sleepList|
      {
        ghost var s1 := View();
        var i := sleepList[0];
        tasks[i] := S.Used(tasks[i].task.(ticks := 0, state := S.Ready));
        lists := S.DropAll(lists, i);
        sleepList := Drop(sleepList[1..], i);
        assert tasks[..] == s1.tasks[i := tasks[i]];
        forall x | x in sleepList ensures S.Is(View(), x) {
          assert x in s1.sleepList && S.Is(s1, x);
        }
      }
    }

    // taskFork: the child gets the lowest free slot.
    method TaskFork() returns (r: Result<nat>)
      requires Valid()
      modifies this, tasks
      ensures r.Halt? ==> S.Fork(old(View())) == Halt(r.why)
      ensures r.Ok? ==> S.Fork(old(View())) == Ok((View(), r.value))
    {
      var linked := IsLinked(current);
      if tasks[current].task.state != S.Running || linked {
        return Halt(AssertFailed);
      }
      var i := 0;
      while i < tasks.Length && tasks[i].Used?
        invariant 0 <= i <= tasks.Length
        invariant S.FreeSlot(tasks[..], 0) == S.FreeSlot(tasks[..], i)
      {
        i := i + 1;
      }
      if i == tasks.Length {
        return Halt(TableFull);
      }
      var t := tasks[current].task;
      tasks[i] := S.Used(t.(ppid := current, ticks := t.priority, state := S.Ready, serial := next));
      next := next + 1;
      return Ok(i);
    }

    // taskExit's loop over the table.
    method Reparent(t: nat, ppid: nat)
      modifies tasks
      ensures tasks[..] == S.Reparent(old(tasks[..]), t, ppid)
    {
      ghost var before := tasks[..];
      var i := 2;
      while i < tasks.Length
        invariant 2 <= i
        invariant forall k :: 0 <= k < tasks.Length ==>
                    tasks[k] == if k < i then S.Reparent(before, t, ppid)[k] else before[k]
      {
        if tasks[i].Used? && tasks[i].task.ppid == t {
          tasks[i] := S.Used(tasks[i].task.(ppid := ppid));
        }
        i := i + 1;
      }
    }

    method TaskExit(status: int) returns (r: Result<()>)
      requires Valid() && tasks[0].Used? && S.Is(View(), tasks[current].task.ppid)
      modifies this, tasks
      ensures r.Halt? ==> S.Exit(old(View()), status) == Halt(r.why)
      ensures r.Ok? ==> S.Exit(old(View()), status) == Ok(View())
    {
      hide S.Schedule, S.Linked;
      var linked := IsLinked(current);
      var t := tasks[current].task;
      if t.state != S.Running || linked || t.uid == S.KERNEL_USER {
        return Halt(AssertFailed);
      }
      tasks[current] := S.Used(t.(state := S.Died, status := status));
      Reparent(current, t.ppid);
      var parent := tasks[t.ppid].task;
      if parent.state == S.Waiting && S.Matches(parent.waitpid, current) {
        r := TaskUnblock(t.ppid);
        if r.Halt? {
          return;
        }
      }
      Schedule();
      return Ok(());
    }

    // One pass of taskWaitpid's loop over the table.
    method TaskWaitpid(pid: int) returns (r: Result<S.Answer>)
      requires Valid() && tasks[0].Used?
      modifies this, tasks
      ensures r.Halt? ==> S.Waitpid(old(View()), pid) == Halt(r.why)
      ensures r.Ok? ==> S.Waitpid(old(View()), pid) == Ok((View(), r.value))
    {
      hide S.Block, S.Schedule;
      ghost var s := View();
      var has_child := false;
      var i := 2;
      while i < S.NR_TASKS
        invariant 2 <= i <= S.NR_TASKS
        invariant S.DeadChild(s, current, pid, 2) == S.DeadChild(s, current, pid, i)
        invariant has_child <==> exists k :: 2 <= k < i && S.IsChild(s, current, pid, k)
        invariant View() == s
      {
        var ptr := tasks[i];
        if ptr.Used? && ptr.task.ppid == current && S.Matches(pid, i) {
          assert S.IsChild(s, current, pid, i);
          if ptr.task.state == S.Died {
            tasks[i] := S.Free;
            reaped := reaped + [ptr.task.serial];
            return Ok(S.Reaped(i, ptr.task.status));
          }
          has_child := true;
        }
        i := i + 1;
      }
      if has_child {
        tasks[current] := S.Used(tasks[current].task.(waitpid := pid));
        var blocked := TaskBlock(0, S.Waiting);
        if blocked.Halt? {
          return Halt(blocked.why);
        }
        return Ok(S.MustWait);
      }
      return Ok(S.NoChild);
    }
  }

  lemma {:induction false} InsertSplit(s: S.Sys, l: seq<nat>, i: nat, k: nat)
    requires k <= |l| && forall j :: 0 <= j < k ==> S.TicksOf(s, l[j]) <= S.TicksOf(s, i)
    requires k < |l| ==> S.TicksOf(s, l[k]) > S.TicksOf(s, i)
    ensures S.InsertSorted(s, l, i) == l[..k] + [i] + l[k..]
  {
    if k > 0 {
      InsertSplit(s, l[1..], i, k - 1);
      assert l[1..][..k - 1] == l[1..k] && l[1..][k - 1..] == l[k..];
    }
  }
}
