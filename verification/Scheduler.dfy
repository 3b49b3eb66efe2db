/**
 The task table of src/kernel/task.cpp as a state machine: scheduling, blocking,
 sleeping, fork, exit and waitpid.  A step runs from one task switch to the next;
 the kernel runs these paths with interrupts off, so nothing comes in between.
 */
module Scheduler {
  import opened Outcome
  import opened Lists
  import opened Words

  const NR_TASKS := 64
  const KERNEL_USER := 0
  const JIFFY := 10

  // taskCreate is given 1 and 5; fork copies them.
  type Priority = x: nat | 0 < x < 0x8000_0000 witness 1

  datatype State = Running | Ready | Blocked | Sleeping | Waiting | Died

  // `serial` numbers the tasks in order of creation; the source has no such field.
  // It only serves to say which of the tasks that had the same pid is meant.
  datatype Task = Task(state: State, ppid: nat, waitpid: int, status: int, ticks: int, jiffies: nat,
                       priority: Priority, uid: nat, serial: nat)

  datatype Slot = Free | Used(task: Task)

  // `lists` are the lists that tasks block on, blockList first; a list starts with
  // its head.  `reaped` logs the serials of the children that waitpid has returned.
  datatype Sys = Sys(tasks: seq<Slot>, current: nat, lists: seq<seq<nat>>, sleepList: seq<nat>, jiffies: nat,
                     next: nat, reaped: seq<nat>)

  // ---------- reading the table ----------

  predicate Is(s: Sys, i: int) {
    0 <= i < |s.tasks| && s.tasks[i].Used?
  }

  predicate In(s: Sys, i: int, state: State) {
    Is(s, i) && s.tasks[i].task.state == state
  }

  function Put(s: Sys, i: nat, t: Task): Sys
    requires i < |s.tasks|
  {
    s.(tasks := s.tasks[i := Used(t)])
  }

  function SetState(s: Sys, i: nat, state: State): Sys
    requires Is(s, i)
  {
    Put(s, i, s.tasks[i].task.(state := state))
  }

  // ---------- lists ----------

  function DropAll(lists: seq<seq<nat>>, i: nat): (r: seq<seq<nat>>)
    ensures |r| == |lists| && forall k :: 0 <= k < |lists| ==> r[k] == Drop(lists[k], i)
  {
    seq(|lists|, k requires 0 <= k < |lists| => Drop(lists[k], i))
  }

  // ---------- schedule ----------

  // taskSearch(TASK_READY) over the first n slots, the current task left out; -1 if none.
  function Search(tasks: seq<Slot>, current: nat, n: nat): (r: int)
    requires n <= |tasks|
    ensures r == -1 || (0 <= r < n && r != current && tasks[r].Used? && tasks[r].task.state == Ready)
    ensures r == -1 ==> forall i :: 0 <= i < n && i != current ==> !(tasks[i].Used? && tasks[i].task.state == Ready)
  {
    if n == 0 then -1
    else
      var r := Search(tasks, current, n - 1);
      if tasks[n - 1].Used? && tasks[n - 1].task.state == Ready && n - 1 != current
         && (r == -1 || tasks[r].task.ticks < tasks[n - 1].task.ticks || tasks[n - 1].task.jiffies < tasks[r].task.jiffies)
      then n - 1 else r
  }

  function Schedule(s: Sys): Result<Sys>
    requires |s.tasks| == NR_TASKS
  {
    var found := Search(s.tasks, s.current, NR_TASKS);
    var next := if found == -1 then 0 else found;
    if !Is(s, s.current) || !Is(s, next) then Halt(Undefined)
    else
      var s1 := if s.tasks[s.current].task.state == Running then SetState(s, s.current, Ready) else s;
      var t := s1.tasks[s.current].task;
      var s2 := if t.ticks == 0 then Put(s1, s.current, t.(ticks := t.priority)) else s1;
      Ok(SetState(s2, next, Running).(current := next))
  }

  // ---------- blocking ----------

  predicate Linked(s: Sys, i: nat) {
    i in s.sleepList || exists k :: 0 <= k < |s.lists| && i in s.lists[k]
  }

  // taskBlock of the running task on list l (blockList is list 0).
  function Block(s: Sys, l: nat, state: State): Result<Sys>
    requires |s.tasks| == NR_TASKS && l < |s.lists|
  {
    if Linked(s, s.current) || state == Ready || state == Running || !Is(s, s.current) then Halt(AssertFailed)
    else Schedule(SetState(s, s.current, state).(lists := s.lists[l := [s.current] + s.lists[l]]))
  }

  // taskUnblock: the node leaves whatever list it is on.
  function Unblock(s: Sys, i: nat): Result<Sys>
    requires |s.tasks| == NR_TASKS
  {
    if !Linked(s, i) || !Is(s, i) then Halt(AssertFailed)
    else Ok(SetState(s, i, Ready).(lists := DropAll(s.lists, i), sleepList := Drop(s.sleepList, i)))
  }

  // ---------- sleeping ----------

  function TicksOf(s: Sys, i: nat): int {
    if Is(s, i) then s.tasks[i].task.ticks else 0
  }

  // listInsertSort: before the first node with a larger key.
  function InsertSorted(s: Sys, l: seq<nat>, i: nat): (r: seq<nat>)
    ensures forall x :: x in r <==> x in l || x == i
  {
    if l == [] then [i]
    else if TicksOf(s, l[0]) > TicksOf(s, i) then [i] + l
    else [l[0]] + InsertSorted(s, l[1..], i)
  }

  // The tick at which a sleep of `ms` milliseconds ends: at least one tick from now.
  function WakeTick(s: Sys, ms: uint32): nat {
    s.jiffies + if ms / JIFFY > 0 then ms / JIFFY else 1
  }

  // The current task marked asleep and put on the sleep list.
  function Asleep(s: Sys, wake: nat): Sys
    requires Is(s, s.current)
  {
    var s1 := Put(s, s.current, s.tasks[s.current].task.(ticks := S32(wake), state := Sleeping));
    s1.(sleepList := InsertSorted(s1, s1.sleepList, s1.current))
  }

  function Sleep(s: Sys, ms: uint32): Result<Sys>
    requires |s.tasks| == NR_TASKS
  {
    if Linked(s, s.current) || !Is(s, s.current) then Halt(AssertFailed)
    else Schedule(Asleep(s, WakeTick(s, ms)))
  }

  // taskWakeup: from the head of the list, until a task is not yet due.
  function Wakeup(s: Sys): (r: Sys)
    requires |s.tasks| == NR_TASKS
    ensures |r.tasks| == NR_TASKS
    decreases |s.sleepList|
  {
    if s.sleepList == [] || !Is(s, s.sleepList[0]) || U32(TicksOf(s, s.sleepList[0])) > s.jiffies then s
    else
      var i := s.sleepList[0];
      var s1 := Put(s, i, s.tasks[i].task.(ticks := 0, state := Ready));
      Wakeup(s1.(lists := DropAll(s.lists, i), sleepList := Drop(s.sleepList[1..], i)))
  }

  // The bookkeeping of clockHandler for the running task.
  function Ticked(s: Sys): Sys
    requires Is(s, s.current)
  {
    var jiffies := (s.jiffies + 1) % TWO32;
    var t := s.tasks[s.current].task;
    Put(s, s.current, t.(jiffies := jiffies, ticks := t.ticks - 1)).(jiffies := jiffies)
  }

  // clockHandler.
  function Tick(s: Sys): Result<Sys>
    requires |s.tasks| == NR_TASKS
  {
    var s1 := Wakeup(s);
    if !Is(s1, s1.current) then Halt(Undefined)
    else
      var s2 := Ticked(s1);
      if TicksOf(s2, s2.current) == 0 then Schedule(s2) else Ok(s2)
  }

  // ---------- fork, exit, waitpid ----------

  // getFreeTask: the lowest free slot, |tasks| if there is none.
  function FreeSlot(tasks: seq<Slot>, i: nat): (r: nat)
    requires i <= |tasks|
    ensures i <= r <= |tasks| && (r < |tasks| ==> tasks[r].Free?) && forall k :: i <= k < r ==> tasks[k].Used?
    decreases |tasks| - i
  {
    if i == |tasks| || tasks[i].Free? then i else FreeSlot(tasks, i + 1)
  }

  function Fork(s: Sys): Result<(Sys, nat)>
    requires |s.tasks| == NR_TASKS
  {
    if !In(s, s.current, Running) || Linked(s, s.current) then Halt(AssertFailed)
    else
      var c := FreeSlot(s.tasks, 0);
      if c == NR_TASKS then Halt(TableFull)
      else
        var t := s.tasks[s.current].task;
        Ok((Put(s, c, t.(ppid := s.current, ticks := t.priority, state := Ready, serial := s.next)).(next := s.next + 1), c))
  }

  // taskExit's loop: children of t, from slot 2 on, get t's parent.
  function Reparent(tasks: seq<Slot>, t: nat, ppid: nat): (r: seq<Slot>)
    ensures |r| == |tasks|
    ensures forall i :: 0 <= i < |tasks| ==>
              r[i] == if i >= 2 && tasks[i].Used? && tasks[i].task.ppid == t then Used(tasks[i].task.(ppid := ppid)) else tasks[i]
  {
    seq(|tasks|, i requires 0 <= i < |tasks| =>
      if i >= 2 && tasks[i].Used? && tasks[i].task.ppid == t then Used(tasks[i].task.(ppid := ppid)) else tasks[i])
  }

  // waitpid(w) waits for child c.
  predicate Matches(w: int, c: int) {
    w == -1 || w == c
  }

  function Exit(s: Sys, status: int): Result<Sys>
    requires |s.tasks| == NR_TASKS
  {
    if !In(s, s.current, Running) || Linked(s, s.current) || s.tasks[s.current].task.uid == KERNEL_USER then Halt(AssertFailed)
    else
      var t := s.tasks[s.current].task;
      var s1 := Put(s, s.current, t.(state := Died, status := status));
      var s2 := s1.(tasks := Reparent(s1.tasks, s1.current, t.ppid));
      if !Is(s2, t.ppid) then Halt(Undefined)
      else
        var parent := s2.tasks[t.ppid].task;
        if parent.state == Waiting && Matches(parent.waitpid, s2.current) then
          var s3 :- Unblock(s2, t.ppid);
          if |s3.tasks| != NR_TASKS then Halt(Undefined) else Schedule(s3)
        else Schedule(s2)
  }

  // The child slots waitpid(pid) of task p looks at.
  predicate IsChild(s: Sys, p: nat, pid: int, i: int) {
    i >= 2 && Is(s, i) && s.tasks[i].task.ppid == p && Matches(pid, i)
  }

  // The first dead matching child from slot i on, |tasks| if there is none.
  function DeadChild(s: Sys, p: nat, pid: int, i: nat): (r: nat)
    requires i <= |s.tasks|
    ensures i <= r <= |s.tasks|
    ensures r < |s.tasks| ==> IsChild(s, p, pid, r) && s.tasks[r].task.state == Died
    ensures forall k :: i <= k < r ==> !(IsChild(s, p, pid, k) && s.tasks[k].task.state == Died)
    decreases |s.tasks| - i
  {
    if i == |s.tasks| || (IsChild(s, p, pid, i) && s.tasks[i].task.state == Died) then i
    else DeadChild(s, p, pid, i + 1)
  }

  datatype Answer = Reaped(pid: nat, status: int) | NoChild | MustWait

  // One pass of the loop of taskWaitpid: a dead child is reaped, or the task waits, or
  // it learns that it has no such child.
  function Waitpid(s: Sys, pid: int): Result<(Sys, Answer)>
    requires |s.tasks| == NR_TASKS && |s.lists| > 0
  {
    var d := DeadChild(s, s.current, pid, 2);
    if d < NR_TASKS then
      var t := s.tasks[d].task;
      Ok((s.(tasks := s.tasks[d := Free], reaped := s.reaped + [t.serial]), Reaped(d, t.status)))
    else if exists i :: 2 <= i < NR_TASKS && IsChild(s, s.current, pid, i) then
      if !Is(s, s.current) then Halt(Undefined)
      else
        var s1 := Put(s, s.current, s.tasks[s.current].task.(waitpid := pid));
        var s2 :- Block(s1, 0, Waiting);
        Ok((s2, MustWait))
    else Ok((s, NoChild))
  }

  // ---------- runs ----------

  datatype Event =
    | DoYield
    | DoBlock(list: nat)
    | DoUnblock(task: nat)
    | DoSleep(ms: uint32)
    | DoTick
    | DoFork
    | DoExit(status: int)
    | DoWaitpid(pid: int)

  // The idle thread only ever yields; a task is unblocked by whoever owns the list
  // it is blocked on.
  predicate Possible(s: Sys, e: Event) {
    match e
    case DoBlock(l) => s.current != 0 && l < |s.lists|
    case DoUnblock(i) => In(s, i, Blocked)
    case DoSleep(_) => s.current != 0
    case DoWaitpid(_) => s.current != 0 && |s.lists| > 0
    case _ => true
  }

  function Step(s: Sys, e: Event): Result<Sys>
    requires |s.tasks| == NR_TASKS && Possible(s, e)
  {
    match e
    case DoYield => Schedule(s)
    case DoBlock(l) => Block(s, l, Blocked)
    case DoUnblock(i) => Unblock(s, i)
    case DoSleep(ms) => Sleep(s, ms)
    case DoTick => Tick(s)
    case DoFork => var r :- Fork(s); Ok(r.0)
    case DoExit(status) => Exit(s, status)
    case DoWaitpid(pid) => var r :- Waitpid(s, pid); Ok(r.0)
  }

  // After taskInit and the first schedule: idle, init and test, init running.
  function Boot(n: nat): Sys
    requires n > 0
  {
    var idle := Task(Ready, 0, 0, 0, 1, 0, 1, KERNEL_USER, 0);
    var init := Task(Running, 0, 0, 0, 5, 0, 5, 1000, 1);
    var test := Task(Ready, 0, 0, 0, 5, 0, 5, 1000, 2);
    Sys([Used(idle), Used(init), Used(test)] + seq(NR_TASKS - 3, _ => Free), 1, seq(n, _ => []), [], 0, 3, [])
  }
}
