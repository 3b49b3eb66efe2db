/**
 What every step of the task table keeps, and what waitpid, taskWakeup and the block
 lists can rely on because of it.
 */
module SchedulerInvariant {
  import opened Outcome
  import opened Lists
  import opened Words
  import opened Scheduler

  // ---------- the invariant ----------

  // Slots 0 and 1 hold the idle and the init task for ever; exit and waitpid, which
  // start at slot 2, rely on it.
  ghost predicate Table(s: Sys) {
    && |s.tasks| == NR_TASKS && |s.lists| > 0 && s.jiffies < TWO32
    && Is(s, 0) && s.tasks[0].task.uid == KERNEL_USER && (In(s, 0, Ready) || In(s, 0, Running))
    && Is(s, 1) && s.tasks[1].task.ppid == 0
    && Is(s, s.current)
  }

  ghost predicate OneRunning(s: Sys) {
    In(s, s.current, Running) && forall i :: In(s, i, Running) ==> i == s.current
  }

  // The current task may already have given up the processor.
  ghost predicate NoneElse(s: Sys) {
    forall i :: In(s, i, Running) ==> i == s.current
  }

  // A parent is an occupied slot, alive, and older than its child.
  ghost predicate Family(s: Sys) {
    forall i {:trigger ParentOf(s, i)} :: Is(s, i) && i != 0 ==> ParentOf(s, i)
  }

  ghost predicate ParentOf(s: Sys, i: int) {
    && Is(s, i)
    && var p := s.tasks[i].task.ppid;
       Is(s, p) && s.tasks[p].task.state != Died && s.tasks[p].task.serial < s.tasks[i].task.serial
  }

  // Serials identify tasks: no two tasks ever share one, and what was reaped is gone.
  ghost predicate Serials(s: Sys) {
    && (forall i :: Is(s, i) ==> s.tasks[i].task.serial < s.next && s.tasks[i].task.serial !in s.reaped)
    && (forall i, j :: Is(s, i) && Is(s, j) && s.tasks[i].task.serial == s.tasks[j].task.serial ==> i == j)
    && (forall k :: 0 <= k < |s.reaped| ==> s.reaped[k] < s.next)
    && (forall k, l :: 0 <= k < l < |s.reaped| ==> s.reaped[k] != s.reaped[l])
  }

  ghost predicate LiveChild(s: Sys, p: nat, pid: int, c: int) {
    IsChild(s, p, pid, c) && s.tasks[c].task.state != Died
  }

  // A waiting parent has a living child to wait for, and none that it could reap.
  ghost predicate WaitJustified(s: Sys) {
    forall p: nat :: In(s, p, Waiting) ==>
      && (exists c :: LiveChild(s, p, s.tasks[p].task.waitpid, c))
      && (forall c :: IsChild(s, p, s.tasks[p].task.waitpid, c) ==> s.tasks[c].task.state != Died)
  }

  // A task is on a list exactly when it is blocked, waiting or asleep, and then it is
  // on one list, once.
  ghost predicate Links(s: Sys) {
    && NoDup(s.sleepList) && (forall k :: 0 <= k < |s.lists| ==> NoDup(s.lists[k]))
    && (forall k, l, x :: 0 <= k < |s.lists| && 0 <= l < |s.lists| && x in s.lists[k] && x in s.lists[l] ==> k == l)
    && (forall x :: x in s.sleepList <==> In(s, x, Sleeping))
    && (forall k, x :: 0 <= k < |s.lists| && x in s.lists[k] ==> In(s, x, Blocked) || (k == 0 && In(s, x, Waiting)))
    && (forall x: nat :: In(s, x, Blocked) ==> exists k :: 0 <= k < |s.lists| && x in s.lists[k])
    && (|s.lists| > 0 ==> forall x: nat :: In(s, x, Waiting) ==> x in s.lists[0])
  }

  // The longest sleep, in ticks: a uint32 of milliseconds.
  const MAX_SLEEP := (TWO32 - 1) / JIFFY

  // Sleeper i may stand in front of sleeper j.  The list is sorted by signed ticks,
  // but schedule overwrites a wake-up tick that is 0 modulo 2^32.  That takes a clock
  // past 2^31, and then any two ticks below 2^31 are due, whatever their order.
  ghost predicate InOrder(s: Sys, i: nat, j: nat) {
    TicksOf(s, i) <= TicksOf(s, j) || (0 <= TicksOf(s, i) && 0 <= TicksOf(s, j) && s.jiffies >= TWO31)
  }

  // A wake-up tick in 32 bits, not further ahead than the longest sleep.
  ghost predicate Keyed(s: Sys, i: nat) {
    && -TWO31 <= TicksOf(s, i) < TWO31
    && (TicksOf(s, i) == 0 ==> s.jiffies >= TWO31)
    && (TicksOf(s, i) < 0 ==> TicksOf(s, i) + TWO32 <= s.jiffies + MAX_SLEEP)
  }

  ghost predicate Ordered(s: Sys, l: seq<nat>) {
    && (forall i, j :: 0 <= i < j < |l| ==> InOrder(s, l[i], l[j]))
    && (forall i :: 0 <= i < |l| ==> Keyed(s, l[i]))
  }

  ghost predicate SleepSorted(s: Sys) {
    Ordered(s, s.sleepList)
  }

  // Time may pass, and a tick 0 may become positive, without disturbing the order.
  ghost predicate KeepsTicks(s: Sys, r: Sys, i: nat) {
    TicksOf(r, i) == TicksOf(s, i) || (TicksOf(s, i) == 0 && 0 <= TicksOf(r, i) < TWO31)
  }

  lemma StaysOrdered(s: Sys, r: Sys, l: seq<nat>)
    requires Ordered(s, l) && (l == [] || s.jiffies <= r.jiffies)
    requires forall x :: x in l ==> KeepsTicks(s, r, x)
    ensures Ordered(r, l)
  {
    forall i, j | 0 <= i < j < |l| ensures InOrder(r, l[i], l[j]) {
      assert InOrder(s, l[i], l[j]) && Keyed(s, l[i]) && Keyed(s, l[j]) && KeepsTicks(s, r, l[i]) && KeepsTicks(s, r, l[j]);
    }
    forall i | 0 <= i < |l| ensures Keyed(r, l[i]) {
      assert Keyed(s, l[i]) && KeepsTicks(s, r, l[i]);
    }
  }

  ghost predicate Base(s: Sys) {
    Table(s) && Family(s) && Serials(s) && WaitJustified(s) && Links(s) && SleepSorted(s)
  }

  ghost predicate Inv(s: Sys) {
    Base(s) && OneRunning(s)
  }

  // ---------- steps that only move tasks between Running and Ready ----------

  ghost predicate Runnable(s: Sys, i: int) {
    In(s, i, Running) || In(s, i, Ready)
  }

  // r differs from s in who is running, and in ticks of tasks that are not asleep.
  ghost predicate Calm(s: Sys, r: Sys) {
    && |r.tasks| == |s.tasks| && r.lists == s.lists && r.sleepList == s.sleepList
    && r.next == s.next && r.reaped == s.reaped && (s.sleepList == [] || s.jiffies <= r.jiffies)
    && (forall i :: Is(r, i) <==> Is(s, i))
    && (forall i :: Is(s, i) ==>
          var t := s.tasks[i].task; var u := r.tasks[i].task;
          && u.ppid == t.ppid && u.waitpid == t.waitpid && u.serial == t.serial && u.uid == t.uid
          && (if Runnable(s, i) then Runnable(r, i) else u.state == t.state)
          && (u.state == Sleeping ==> u.ticks == t.ticks || (t.ticks == 0 && 0 <= u.ticks < TWO31)))
  }

  // Who is whose child, and who is dead, is the same in r as in s.
  ghost predicate Kin(s: Sys, r: Sys) {
    && |r.tasks| == |s.tasks| && r.next == s.next && r.reaped == s.reaped
    && (forall i :: Is(r, i) <==> Is(s, i))
    && (forall i :: Is(s, i) ==>
          var t := s.tasks[i].task; var u := r.tasks[i].task;
          u.ppid == t.ppid && u.waitpid == t.waitpid && u.serial == t.serial && (u.state == Died <==> t.state == Died))
  }

  lemma KinFamily(s: Sys, r: Sys)
    requires Kin(s, r) && Family(s) && Serials(s)
    ensures Family(r) && Serials(r)
  {
    forall i | Is(r, i) && i != 0
      ensures ParentOf(r, i)
    {
      assert ParentOf(s, i);
    }
  }

  // What process p needs to be allowed to wait.
  ghost predicate Justified(s: Sys, p: nat) {
    && Is(s, p)
    && (exists c :: LiveChild(s, p, s.tasks[p].task.waitpid, c))
    && (forall c :: IsChild(s, p, s.tasks[p].task.waitpid, c) ==> s.tasks[c].task.state != Died)
  }

  lemma KinWaits(s: Sys, r: Sys)
    requires Kin(s, r)
    requires forall p: nat :: In(r, p, Waiting) ==> Justified(s, p)
    ensures WaitJustified(r)
  {
    forall p: nat | In(r, p, Waiting)
      ensures exists c :: LiveChild(r, p, r.tasks[p].task.waitpid, c)
      ensures forall c :: IsChild(r, p, r.tasks[p].task.waitpid, c) ==> r.tasks[c].task.state != Died
    {
      assert Justified(s, p);
      var c :| LiveChild(s, p, s.tasks[p].task.waitpid, c);
      assert LiveChild(r, p, r.tasks[p].task.waitpid, c);
      forall d | IsChild(r, p, r.tasks[p].task.waitpid, d) ensures r.tasks[d].task.state != Died {
        assert IsChild(s, p, s.tasks[p].task.waitpid, d);
      }
    }
  }

  lemma CalmKin(s: Sys, r: Sys)
    requires Calm(s, r) && Family(s) && Serials(s) && WaitJustified(s)
    ensures Family(r) && Serials(r) && WaitJustified(r)
  {
    assert Kin(s, r);
    KinFamily(s, r);
    forall p: nat | In(r, p, Waiting) ensures Justified(s, p) {
      assert In(s, p, Waiting);
    }
    hide Family, Serials, WaitJustified, Calm;
    KinWaits(s, r);
  }

  lemma CalmLinks(s: Sys, r: Sys)
    requires Calm(s, r) && Links(s) && SleepSorted(s)
    ensures Links(r) && SleepSorted(r)
  {
    forall x, st | st == Blocked || st == Waiting || st == Sleeping ensures In(r, x, st) <==> In(s, x, st) {
    }
    forall x | x in s.sleepList ensures KeepsTicks(s, r, x) {
      assert In(s, x, Sleeping);
    }
    hide Links, Calm, KeepsTicks, Ordered;
    StaysOrdered(s, r, s.sleepList);
  }

  // schedule hands the processor to exactly one task.
  lemma ScheduleKeeps(s: Sys)
    requires Base(s) && NoneElse(s)
    ensures Schedule(s).Ok? && Inv(Schedule(s).value)
  {
    assert In(s, 0, Ready) || s.current == 0;
    var r := Schedule(s).value;
    ScheduleCalm(s);
    hide Schedule;
    hide Table, Family, Serials, WaitJustified, Links, SleepSorted, Calm;
    CalmKin(s, r);
    CalmLinks(s, r);
  }

  // Schedule, task by task.
  ghost predicate IsRescheduled(s: Sys, r: Sys) {
    && |s.tasks| == NR_TASKS == |r.tasks| && r == s.(tasks := r.tasks, current := r.current)
    && Is(s, s.current) && Is(s, r.current)
    && (r.current == s.current ==> s.current == 0)
    && (r.current != 0 ==> In(s, r.current, Ready))
    && (forall i :: 0 <= i < NR_TASKS ==>
          r.tasks[i] == if s.tasks[i].Free? then Free else Used(Rescheduled(s, r.current, i)))
  }

  function Rescheduled(s: Sys, next: nat, i: nat): Task
    requires Is(s, i)
  {
    var t := s.tasks[i].task;
    t.(state := if i == next then Running else if i == s.current && t.state == Running then Ready else t.state,
       ticks := if i == s.current && t.ticks == 0 then t.priority else t.ticks)
  }

  lemma ScheduleTasks(s: Sys)
    requires |s.tasks| == NR_TASKS && Schedule(s).Ok?
    ensures IsRescheduled(s, Schedule(s).value)
  {
  }

  lemma ScheduleCalm(s: Sys)
    requires Base(s) && NoneElse(s) && Schedule(s).Ok?
    ensures var r := Schedule(s).value;
      Calm(s, r) && Table(r) && OneRunning(r)
  {
    var r := Schedule(s).value;
    ScheduleTasks(s);
    hide Base, Schedule;
    RescheduledCalm(s, r);
    RescheduledTable(s, r);
    hide *;
  }

  lemma RescheduledCalm(s: Sys, r: Sys)
    requires IsRescheduled(s, r) && Runnable(s, 0)
    ensures Calm(s, r)
  {
    assert Runnable(s, r.current);
    hide Rescheduled;
    forall i | Is(s, i)
      ensures var t := s.tasks[i].task; var u := r.tasks[i].task;
          && u.ppid == t.ppid && u.waitpid == t.waitpid && u.serial == t.serial && u.uid == t.uid
          && (if Runnable(s, i) then Runnable(r, i) else u.state == t.state)
          && (u.state == Sleeping ==> u.ticks == t.ticks || (t.ticks == 0 && 0 <= u.ticks < TWO31))
    {
      RescheduledOne(s, r, i);
    }
  }

  lemma RescheduledOne(s: Sys, r: Sys, i: int)
    requires IsRescheduled(s, r) && Is(s, i) && Runnable(s, r.current)
    ensures Is(r, i)
    ensures var t := s.tasks[i].task; var u := r.tasks[i].task;
      && u.ppid == t.ppid && u.waitpid == t.waitpid && u.serial == t.serial && u.uid == t.uid
      && (if Runnable(s, i) then Runnable(r, i) else u.state == t.state)
      && (u.state == Sleeping ==> u.ticks == t.ticks || (t.ticks == 0 && 0 <= u.ticks < TWO31))
  {
  }

  lemma RescheduledTable(s: Sys, r: Sys)
    requires IsRescheduled(s, r) && Table(s) && NoneElse(s)
    ensures Table(r) && OneRunning(r)
  {
    forall i | In(r, i, Running) ensures i == r.current {
      assert In(s, i, Running) ==> i == s.current;
    }
  }

  // ---------- who gets the processor ----------

  ghost predicate Candidate(s: Sys, i: int) {
    In(s, i, Ready) && i != s.current
  }

  // More ticks left, or less recently on the processor: either is enough.
  ghost predicate Beats(s: Sys, a: int, b: int) {
    && Is(s, a) && Is(s, b)
    && (s.tasks[a].task.ticks > s.tasks[b].task.ticks || s.tasks[a].task.jiffies < s.tasks[b].task.jiffies)
  }

  // Along the slots below n: the first candidate leads, each next leader is the first
  // one behind it that beats it, and nobody behind the last leader beats it.
  ghost predicate Leaders(s: Sys, n: nat, l: seq<nat>) {
    && l != []
    && var e := l[|l| - 1];
       && Candidate(s, e) && e < n && Unbeaten(s, e, n)
       && if |l| == 1 then forall i :: 0 <= i < e ==> !Candidate(s, i)
          else Leaders(s, e, l[..|l| - 1]) && Beats(s, e, l[|l| - 2])
  }

  ghost predicate Unbeaten(s: Sys, e: nat, n: nat) {
    forall i :: e < i < n && Candidate(s, i) ==> !Beats(s, i, e)
  }

  lemma {:induction false} SearchEndsWithLeader(s: Sys, n: nat)
    requires n <= |s.tasks| && exists i :: 0 <= i < n && Candidate(s, i)
    ensures exists l: seq<nat> :: Leaders(s, n, l) && Search(s.tasks, s.current, n) == l[|l| - 1]
  {
    if exists i :: 0 <= i < n - 1 && Candidate(s, i) {
      SearchEndsWithLeader(s, n - 1);
      var l: seq<nat> :| Leaders(s, n - 1, l) && Search(s.tasks, s.current, n - 1) == l[|l| - 1];
      hide Leaders, Candidate, Beats;
      NextLeader(s, n, l);
    } else {
      FirstLeader(s, n);
    }
  }

  lemma NextLeader(s: Sys, n: nat, l: seq<nat>)
    requires 0 < n <= |s.tasks| && l != [] && Leaders(s, n - 1, l) && Search(s.tasks, s.current, n - 1) == l[|l| - 1]
    ensures exists m: seq<nat> :: Leaders(s, n, m) && Search(s.tasks, s.current, n) == m[|m| - 1]
  {
    var e := l[|l| - 1];
    if Candidate(s, n - 1) && Beats(s, n - 1, e) {
      var m: seq<nat> := l + [n - 1];
      assert m[..|m| - 1] == l && m[|m| - 2] == e;
      assert Leaders(s, n, m);
    } else {
      assert Unbeaten(s, e, n);
      assert Leaders(s, n, l);
    }
  }

  lemma FirstLeader(s: Sys, n: nat)
    requires n <= |s.tasks| && (exists i :: 0 <= i < n && Candidate(s, i)) && !exists i :: 0 <= i < n - 1 && Candidate(s, i)
    ensures exists l: seq<nat> :: Leaders(s, n, l) && Search(s.tasks, s.current, n) == l[|l| - 1]
  {
    var before := Search(s.tasks, s.current, n - 1);
    assert before != -1 ==> Candidate(s, before);
    var l: seq<nat> := [n - 1];
    assert Leaders(s, n, l);
  }

  // All candidates ran as recently as i, or all have as many ticks as i.
  ghost predicate Even(s: Sys, i: int) {
    && Is(s, i)
    && ((forall k :: Candidate(s, k) ==> s.tasks[k].task.jiffies == s.tasks[i].task.jiffies)
        || (forall k :: Candidate(s, k) ==> s.tasks[k].task.ticks == s.tasks[i].task.ticks))
  }

  ghost predicate Precedes(s: Sys, e: int, i: int) {
    && Is(s, e) && Is(s, i)
    && (Beats(s, e, i)
        || (e < i && s.tasks[e].task.ticks == s.tasks[i].task.ticks && s.tasks[e].task.jiffies == s.tasks[i].task.jiffies))
  }

  // Leaders of equal age, or with equal ticks, get better and better.
  lemma {:induction false} LastLeaderWins(s: Sys, n: nat, l: seq<nat>, i: nat)
    requires Leaders(s, n, l) && Candidate(s, i) && i < n && i != l[|l| - 1] && Even(s, i)
    ensures Precedes(s, l[|l| - 1], i)
    decreases |l|
  {
    var e := l[|l| - 1];
    if i < e {
      assert |l| > 1;
      var m := l[..|l| - 1];
      assert m[|m| - 1] == l[|l| - 2];
      assert Candidate(s, m[|m| - 1]);
      if i != m[|m| - 1] {
        LastLeaderWins(s, e, m, i);
      }
    }
  }

  // schedule: the last leader of the whole table, the idle task if there is no candidate.
  // With equal jiffies that is the first of those with most ticks, with equal ticks the
  // first of those that have not run for longest.
  lemma ScheduleChooses(s: Sys)
    requires |s.tasks| == NR_TASKS && Schedule(s).Ok?
    ensures var e := Schedule(s).value.current;
      if forall i :: !Candidate(s, i) then e == 0
      else
        && (exists l: seq<nat> :: Leaders(s, NR_TASKS, l) && e == l[|l| - 1])
        && forall i: nat :: Candidate(s, i) && i != e && Even(s, i) ==> Precedes(s, e, i)
  {
    var found := Search(s.tasks, s.current, NR_TASKS);
    assert Schedule(s).value.current == if found == -1 then 0 else found;
    hide *;
    if exists i :: Candidate(s, i) {
      SomeCandidate(s);
      SearchEndsWithLeader(s, NR_TASKS);
      LeaderPrecedes(s, found);
    } else {
      NoCandidate(s);
    }
  }

  lemma SomeCandidate(s: Sys)
    requires |s.tasks| == NR_TASKS && exists i :: Candidate(s, i)
    ensures NR_TASKS <= |s.tasks| && exists i :: 0 <= i < NR_TASKS && Candidate(s, i)
  {
    var i :| Candidate(s, i);
    assert 0 <= i < NR_TASKS;
  }

  lemma NoCandidate(s: Sys)
    requires |s.tasks| == NR_TASKS && forall i :: !Candidate(s, i)
    ensures Search(s.tasks, s.current, NR_TASKS) == -1
  {
    var found := Search(s.tasks, s.current, NR_TASKS);
    assert !Candidate(s, found);
  }

  lemma LeaderPrecedes(s: Sys, found: int)
    requires |s.tasks| == NR_TASKS && exists l: seq<nat> :: Leaders(s, NR_TASKS, l) && found == l[|l| - 1]
    ensures found != -1 && forall i: nat :: Candidate(s, i) && i != found && Even(s, i) ==> Precedes(s, found, i)
  {
    var l: seq<nat> :| Leaders(s, NR_TASKS, l) && found == l[|l| - 1];
    hide Leaders, Even, Precedes;
    forall i: nat | Candidate(s, i) && i != found && Even(s, i) ensures Precedes(s, found, i) {
      LastLeaderWins(s, NR_TASKS, l, i);
    }
  }

  // ---------- blocking and unblocking ----------

  // The current task has gone on list l, and nothing else changed.
  ghost predicate Pushed(s: Sys, r: Sys, l: nat, state: State) {
    && Is(s, s.current) && l < |s.lists|
    && r == s.(tasks := s.tasks[s.current := Used(s.tasks[s.current].task.(state := state))],
               lists := s.lists[l := [s.current] + s.lists[l]])
  }

  lemma PushedLinks(s: Sys, r: Sys, l: nat, state: State)
    requires Links(s) && Pushed(s, r, l, state) && !Linked(s, s.current)
    requires state == Blocked || (state == Waiting && l == 0)
    ensures Links(r)
  {
    assert forall x :: x in r.lists[l] <==> x == s.current || x in s.lists[l];
    forall x, st | x != s.current ensures In(r, x, st) <==> In(s, x, st) {
    }
    assert In(r, s.current, state);
    assert s.current in r.lists[l];
    forall x: nat | In(r, x, Blocked) ensures exists k :: 0 <= k < |r.lists| && x in r.lists[k] {
      if x != s.current {
        var k :| 0 <= k < |s.lists| && x in s.lists[k];
        assert x in r.lists[k];
      }
    }
  }

  lemma PushedRest(s: Sys, r: Sys, l: nat, state: State)
    requires Table(s) && NoneElse(s) && SleepSorted(s)
    requires Pushed(s, r, l, state) && s.current != 0 && (state == Blocked || state == Waiting)
    ensures Table(r) && NoneElse(r) && SleepSorted(r) && (In(s, s.current, Running) ==> Kin(s, r))
  {
    assert forall i :: In(r, i, Running) ==> In(s, i, Running) && i != s.current;
    hide WaitJustified, Family, Serials, Ordered;
    StaysOrdered(s, r, s.sleepList);
  }

  // A running task is on no list.
  lemma RunningUnlinked(s: Sys, i: nat)
    requires Links(s) && Runnable(s, i)
    ensures !Linked(s, i)
  {
    forall k | 0 <= k < |s.lists| ensures i !in s.lists[k] {
      assert i in s.lists[k] ==> In(s, i, Blocked) || In(s, i, Waiting);
    }
  }

  lemma BlockKeeps(s: Sys, l: nat, state: State)
    requires Inv(s) && s.current != 0 && l < |s.lists|
    requires state == Blocked || (state == Waiting && l == 0 && Justified(s, s.current))
    ensures Block(s, l, state).Ok? && Inv(Block(s, l, state).value)
    ensures var r := Block(s, l, state).value;
      // the task is the first of list l, and nobody else has moved
      && In(r, s.current, state) && |r.lists| == |s.lists| && r.sleepList == s.sleepList
      && r.lists[l] == [s.current] + s.lists[l] && (forall k :: 0 <= k < |s.lists| && k != l ==> r.lists[k] == s.lists[k])
      && OthersStay(s, r)
  {
    CurrentFree(s);
    hide Inv, Schedule, Linked, Justified, Base, OthersStay;
    BlockedBase(s, Gone(s, l, state), l, state);
    hide Pushed;
    assert Block(s, l, state) == Schedule(Gone(s, l, state));
    GoneStays(s, l, state);
    hide Block, Gone;
    ScheduleKeeps(Gone(s, l, state));
  }

  // Every task but the current one is as before; one of the ready ones is now running.
  ghost predicate OthersStay(s: Sys, r: Sys) {
    forall i :: Is(s, i) && i != s.current ==>
      Is(r, i) && (r.tasks[i] == s.tasks[i] || (i == r.current && r.tasks[i].task == s.tasks[i].task.(state := Running)))
  }

  lemma GoneStays(s: Sys, l: nat, state: State)
    requires Is(s, s.current) && s.current != 0 && l < |s.lists| && |s.tasks| == NR_TASKS && state != Running && state != Ready
    requires Schedule(Gone(s, l, state)).Ok?
    ensures var g, r := Gone(s, l, state), Schedule(Gone(s, l, state)).value;
      r.lists == g.lists && r.sleepList == s.sleepList && In(r, s.current, state) && OthersStay(s, r)
  {
    ScheduleTasks(Gone(s, l, state));
    hide Schedule;
  }

  // The current task, state changed, at the head of list l.
  function Gone(s: Sys, l: nat, state: State): Sys
    requires Is(s, s.current) && l < |s.lists|
  {
    SetState(s, s.current, state).(lists := s.lists[l := [s.current] + s.lists[l]])
  }

  lemma CurrentFree(s: Sys)
    requires Inv(s)
    ensures |s.tasks| == NR_TASKS && In(s, s.current, Running) && !Linked(s, s.current)
  {
    hide Family, Serials, WaitJustified, SleepSorted;
    RunningUnlinked(s, s.current);
  }

  lemma BlockedBase(s: Sys, r: Sys, l: nat, state: State)
    requires Inv(s) && Pushed(s, r, l, state) && s.current != 0 && !Linked(s, s.current)
    requires state == Blocked || (state == Waiting && l == 0 && Justified(s, s.current))
    ensures Base(r) && NoneElse(r)
  {
    hide Table, Family, Serials, Links, SleepSorted, Linked, WaitJustified, Justified;
    PushedLinks(s, r, l, state);
    assert NoneElse(s);
    PushedRest(s, r, l, state);
    forall p: nat | In(r, p, Waiting) ensures Justified(s, p) {
      if p != s.current {
        WaiterJustified(s, p);
      }
    }
    hide Pushed, NoneElse;
    KinFamily(s, r);
    KinWaits(s, r);
  }

  lemma WaiterJustified(s: Sys, p: nat)
    requires WaitJustified(s) && In(s, p, Waiting)
    ensures Justified(s, p)
  {
  }

  // Task i leaves its list and becomes ready.
  ghost predicate Freed(s: Sys, r: Sys, i: nat) {
    && Is(s, i) && |r.tasks| == |s.tasks| && r.tasks[i].Used?
    && r == s.(tasks := r.tasks, lists := DropAll(s.lists, i), sleepList := Drop(s.sleepList, i))
    && r.tasks == s.tasks[i := Used(s.tasks[i].task.(state := Ready, ticks := r.tasks[i].task.ticks))]
  }

  lemma FreedLinks(s: Sys, r: Sys, i: nat)
    requires Links(s) && Freed(s, r, i)
    ensures Links(r)
  {
    DropNoDup(s.sleepList, i);
    forall k | 0 <= k < |s.lists| ensures NoDup(r.lists[k]) {
      DropNoDup(s.lists[k], i);
    }
    forall x, st | x != i ensures In(r, x, st) <==> In(s, x, st) {
    }
    assert In(r, i, Ready);
    forall x: nat | In(r, x, Blocked) ensures exists k :: 0 <= k < |r.lists| && x in r.lists[k] {
      assert In(s, x, Blocked);
      var k :| 0 <= k < |s.lists| && x in s.lists[k];
      assert x in r.lists[k];
    }
  }

  lemma FreedRest(s: Sys, r: Sys, i: nat)
    requires Table(s) && NoneElse(s) && Freed(s, r, i)
    requires forall p: nat :: In(s, p, Waiting) && p != i ==> Justified(s, p)
    requires !Runnable(s, i) && !In(s, i, Died)
    ensures Table(r) && NoneElse(r) && Kin(s, r) && WaitJustified(r)
  {
    forall j | In(r, j, Running) ensures j == r.current {
      assert In(s, j, Running);
    }
    forall p: nat | In(r, p, Waiting) ensures Justified(s, p) {
      assert In(s, p, Waiting) && p != i;
    }
    assert Kin(s, r);
    hide Justified, WaitJustified, Freed;
    KinWaits(s, r);
  }

  lemma {:induction false} DropOrdered(s: Sys, l: seq<nat>, i: nat)
    requires Ordered(s, l)
    ensures Ordered(s, Drop(l, i))
  {
    if l != [] {
      assert Ordered(s, l[1..]) by {
        forall a, b | 0 <= a < b < |l[1..]| ensures InOrder(s, l[1..][a], l[1..][b]) {
          assert InOrder(s, l[a + 1], l[b + 1]);
        }
        hide InOrder;
      }
      DropOrdered(s, l[1..], i);
      var d := Drop(l, i);
      if l[0] != i {
        hide InOrder, Keyed;
        assert Keyed(s, l[0]);
        forall b | 1 <= b < |d| ensures InOrder(s, d[0], d[b]) {
          assert d[b] in Drop(l[1..], i);
          var a :| 0 <= a < |l[1..]| && l[1..][a] == d[b];
          assert InOrder(s, l[0], l[a + 1]);
        }
      }
    }
  }

  // taskUnblock of a task on some list.
  lemma UnblockKeeps(s: Sys, i: nat)
    requires Base(s) && NoneElse(s) && (In(s, i, Blocked) || In(s, i, Waiting))
    ensures Unblock(s, i).Ok? && Base(Unblock(s, i).value) && NoneElse(Unblock(s, i).value)
    ensures Freed(s, Unblock(s, i).value, i)
  {
    BlockedLinked(s, i);
    forall p: nat | In(s, p, Waiting) ensures Justified(s, p) {
      WaiterJustified(s, p);
    }
    hide Table, Family, Serials, WaitJustified, Links, SleepSorted, NoneElse, Linked, Justified;
    FreedBase(s, Unblock(s, i).value, i);
  }

  lemma BlockedLinked(s: Sys, i: nat)
    requires Base(s) && (In(s, i, Blocked) || In(s, i, Waiting))
    ensures Linked(s, i) && |s.tasks| == NR_TASKS
  {
  }

  lemma FreedBase(s: Sys, r: Sys, i: nat)
    requires Table(s) && Family(s) && Serials(s) && Links(s) && SleepSorted(s) && NoneElse(s)
    requires forall p: nat :: In(s, p, Waiting) && p != i ==> Justified(s, p)
    requires Freed(s, r, i) && !Runnable(s, i) && !In(s, i, Died)
    ensures Base(r) && NoneElse(r)
  {
    hide Table, Family, Serials, WaitJustified, Links, Kin, NoneElse, Linked;
    FreedLinks(s, r, i);
    FreedRest(s, r, i);
    KinFamily(s, r);
    FreedSorted(s, r, i);
    hide Freed, SleepSorted;
  }

  lemma FreedSorted(s: Sys, r: Sys, i: nat)
    requires SleepSorted(s) && Freed(s, r, i)
    ensures SleepSorted(r)
  {
    DropOrdered(s, s.sleepList, i);
    forall x | x in r.sleepList ensures KeepsTicks(s, r, x) {
      assert x != i;
    }
    hide Ordered, KeepsTicks;
    StaysOrdered(s, r, r.sleepList);
  }

  // ---------- sleeping ----------

  // The list stays in order: the new task goes behind everything with a tick no larger.
  lemma {:induction false} InsertKeepsOrder(s: Sys, l: seq<nat>, i: nat)
    requires Ordered(s, l) && Keyed(s, i)
    ensures Ordered(s, InsertSorted(s, l, i))
  {
    if l != [] {
      assert Keyed(s, l[0]);
      assert forall b :: 0 < b < |l| ==> InOrder(s, l[0], l[b]);
      if TicksOf(s, l[0]) <= TicksOf(s, i) {
        assert InOrder(s, l[0], i);
        hide InOrder, Keyed;
        assert Ordered(s, l[1..]);
        InsertKeepsOrder(s, l[1..], i);
        var r := InsertSorted(s, l, i);
        forall b | 1 <= b < |r| ensures InOrder(s, r[0], r[b]) {
          assert r[b] in InsertSorted(s, l[1..], i);
          if r[b] != i {
            var a :| 0 <= a < |l[1..]| && l[1..][a] == r[b];
            assert InOrder(s, l[0], l[a + 1]);
          }
        }
      }
    }
  }

  lemma {:induction false} InsertNoDup(s: Sys, l: seq<nat>, i: nat)
    requires NoDup(l) && i !in l
    ensures NoDup(InsertSorted(s, l, i))
  {
    if l != [] && !(TicksOf(s, l[0]) > TicksOf(s, i)) {
      InsertNoDup(s, l[1..], i);
      assert l[0] !in l[1..];
    }
  }

  // The current task has gone to sleep until tick `wake`.
  ghost predicate Slept(s: Sys, r: Sys, wake: nat) {
    Is(s, s.current) && r == Asleep(s, wake)
  }

  lemma SleptLinks(s: Sys, r: Sys, wake: nat)
    requires Links(s) && Slept(s, r, wake) && Runnable(s, s.current)
    ensures Links(r)
  {
    RunningUnlinked(s, s.current);
    var s1 := Put(s, s.current, s.tasks[s.current].task.(ticks := S32(wake), state := Sleeping));
    InsertNoDup(s1, s.sleepList, s.current);
    forall x, st | x != s.current ensures In(r, x, st) <==> In(s, x, st) {
    }
    assert In(r, s.current, Sleeping);
    forall x: nat | In(r, x, Blocked) ensures exists k :: 0 <= k < |r.lists| && x in r.lists[k] {
      assert In(s, x, Blocked);
    }
  }

  lemma SleptSorted(s: Sys, r: Sys, wake: nat)
    requires Links(s) && SleepSorted(s) && Slept(s, r, wake) && Runnable(s, s.current)
    requires s.jiffies < wake <= s.jiffies + MAX_SLEEP && s.jiffies < TWO32
    ensures SleepSorted(r)
  {
    RunningUnlinked(s, s.current);
    var s1 := Put(s, s.current, s.tasks[s.current].task.(ticks := S32(wake), state := Sleeping));
    assert Keyed(s1, s.current);
    forall x | x in s.sleepList ensures KeepsTicks(s, s1, x) {
    }
    forall x: nat ensures KeepsTicks(s1, r, x) {
    }
    hide Ordered, KeepsTicks, Links, Linked, Keyed;
    StaysOrdered(s, s1, s.sleepList);
    InsertKeepsOrder(s1, s.sleepList, s.current);
    StaysOrdered(s1, r, r.sleepList);
  }

  lemma SleptRest(s: Sys, r: Sys, wake: nat)
    requires Table(s) && OneRunning(s) && WaitJustified(s) && Slept(s, r, wake) && s.current != 0
    ensures Table(r) && NoneElse(r) && Kin(s, r) && WaitJustified(r)
  {
    forall i | In(r, i, Running) ensures i == r.current {
      assert In(s, i, Running);
    }
    forall p: nat | In(r, p, Waiting) ensures Justified(s, p) {
      WaiterJustified(s, p);
    }
    assert Kin(s, r);
    hide Justified, WaitJustified, Slept;
    KinWaits(s, r);
  }

  lemma SleepKeeps(s: Sys, ms: uint32)
    requires |s.tasks| == NR_TASKS && Inv(s) && s.current != 0
    ensures var r := Sleep(s, ms); r.Ok? && Inv(r.value)
    // it sleeps for the full ticks in ms, but at least for one, and nobody else has moved
    ensures var n := WakeTick(s, ms) - s.jiffies; n >= 1 && if ms < 10 then n == 1 else n * 10 <= ms < n * 10 + 10
    ensures var r, wake := Sleep(s, ms).value, WakeTick(s, ms) % TWO32;
      && In(r, s.current, Sleeping) && r.lists == s.lists && r.jiffies == s.jiffies && OthersStay(s, r)
      && TicksOf(r, s.current) == if wake == 0 then s.tasks[s.current].task.priority else if wake < TWO31 then wake else wake - TWO32
  {
    CurrentFree(s);
    hide Inv, Schedule, Linked, Asleep, Base, NoneElse, WakeTick;
    WakeSoon(s, ms);
    SleptBase(s, Asleep(s, WakeTick(s, ms)), WakeTick(s, ms));
    ScheduleKeeps(Asleep(s, WakeTick(s, ms)));
    SleptStays(s, WakeTick(s, ms));
  }

  lemma SleptStays(s: Sys, wake: nat)
    requires Is(s, s.current) && s.current != 0 && |s.tasks| == NR_TASKS && |Asleep(s, wake).tasks| == NR_TASKS && Schedule(Asleep(s, wake)).Ok?
    ensures var r, w := Schedule(Asleep(s, wake)).value, wake % TWO32;
      && In(r, s.current, Sleeping) && r.lists == s.lists && r.jiffies == s.jiffies && OthersStay(s, r)
      && TicksOf(r, s.current) == if w == 0 then s.tasks[s.current].task.priority else if w < TWO31 then w else w - TWO32
  {
    ScheduleTasks(Asleep(s, wake));
    hide Schedule, InsertSorted;
  }

  lemma WakeSoon(s: Sys, ms: uint32)
    ensures s.jiffies < WakeTick(s, ms) <= s.jiffies + MAX_SLEEP
    ensures var n := WakeTick(s, ms) - s.jiffies; n >= 1 && if ms < 10 then n == 1 else n * 10 <= ms < n * 10 + 10
  {
  }

  lemma SleptBase(s: Sys, r: Sys, wake: nat)
    requires Inv(s) && Slept(s, r, wake) && s.current != 0 && s.jiffies < wake <= s.jiffies + MAX_SLEEP
    ensures Base(r) && NoneElse(r)
  {
    assert Runnable(s, s.current) && s.jiffies < TWO32;
    hide Table, Family, Serials, WaitJustified, Links, SleepSorted, Kin, Linked, Slept, NoneElse, OneRunning;
    SleptLinks(s, r, wake);
    SleptSorted(s, r, wake);
    SleptRest(s, r, wake);
    KinFamily(s, r);
  }

  // ---------- the clock ----------

  // The head of the sleep list is woken.
  lemma WakeOneKeeps(s: Sys, r: Sys)
    requires Base(s) && NoneElse(s) && s.sleepList != [] && Freed(s, r, s.sleepList[0])
    ensures Base(r) && NoneElse(r) && s.sleepList[0] !in s.sleepList[1..] && r.sleepList == s.sleepList[1..]
  {
    var i := s.sleepList[0];
    assert In(s, i, Sleeping);
    assert i !in s.sleepList[1..];
    DropAbsent(s.sleepList[1..], i);
    forall p: nat | In(s, p, Waiting) ensures Justified(s, p) {
      WaiterJustified(s, p);
    }
    hide Table, Family, Serials, WaitJustified, Links, SleepSorted, NoneElse, Justified;
    FreedBase(s, r, i);
  }

  // One round of taskWakeup's loop.
  function WakeOne(s: Sys): Sys
    requires s.sleepList != [] && Is(s, s.sleepList[0])
  {
    var i := s.sleepList[0];
    Put(s, i, s.tasks[i].task.(ticks := 0, state := Ready))
      .(lists := DropAll(s.lists, i), sleepList := Drop(s.sleepList[1..], i))
  }

  lemma WakeOneFrees(s: Sys)
    requires s.sleepList != [] && Is(s, s.sleepList[0])
    ensures Freed(s, WakeOne(s), s.sleepList[0])
  {
  }

  predicate Due(s: Sys, i: nat) {
    U32(TicksOf(s, i)) <= s.jiffies
  }

  lemma {:induction false} WakeupKeeps(s: Sys)
    requires Base(s) && NoneElse(s)
    ensures Base(Wakeup(s)) && NoneElse(Wakeup(s))
    ensures Wakeup(s).current == s.current && (In(s, s.current, Running) ==> In(Wakeup(s), s.current, Running))
    ensures Wakeup(s).jiffies == s.jiffies && (s.jiffies == TWO32 - 1 ==> Wakeup(s).sleepList == [])
    decreases |s.sleepList|
  {
    assert s.sleepList != [] ==> In(s, s.sleepList[0], Sleeping);
    if s.sleepList != [] && Due(s, s.sleepList[0]) {
      WakeOneFrees(s);
      var r := WakeOne(s);
      hide Base, NoneElse;
      WakeOneKeeps(s, r);
      assert Wakeup(s) == Wakeup(r);
      WakeupKeeps(r);
    }
  }

  // What happens to task i when the clock wakes the sleepers.
  ghost predicate WokenIfDue(s: Sys, r: Sys, i: nat) {
    && (Is(r, i) <==> Is(s, i))
    && (Is(s, i) ==>
          r.tasks[i].task == if In(s, i, Sleeping) && Due(s, i) then s.tasks[i].task.(state := Ready, ticks := 0) else s.tasks[i].task)
  }

  // Task a, whose tick is past 2^31 and not yet due, stands in front of task b, whose
  // tick is below 2^31 and due.
  ghost predicate Hides(s: Sys, a: nat, b: nat) {
    && In(s, a, Sleeping) && TicksOf(s, a) < 0 && !Due(s, a)
    && In(s, b, Sleeping) && TicksOf(s, b) >= 0 && Due(s, b)
  }

  // The early stop of taskWakeup is right, and exactly the sleepers whose tick has come
  // are woken, if and only if no sleeper hides another one.
  lemma WakeupExact(s: Sys)
    requires Base(s) && NoneElse(s)
    ensures (forall i: nat :: WokenIfDue(s, Wakeup(s), i)) <==> !exists a: nat, b: nat :: Hides(s, a, b)
  {
    if a: nat, b: nat :| Hides(s, a, b) {
      assert Is(s, b) && In(s, b, Sleeping) && Due(s, b);
      HiddenStays(s, a, b);
      hide Base, Wakeup, NoneElse;
      assert !WokenIfDue(s, Wakeup(s), b);
    } else {
      WokenUnlessHidden(s);
    }
  }

  lemma {:induction false} WokenUnlessHidden(s: Sys)
    requires Base(s) && NoneElse(s) && forall a: nat, b: nat :: !Hides(s, a, b)
    ensures forall i: nat :: WokenIfDue(s, Wakeup(s), i)
    decreases |s.sleepList|
  {
    hide *;
    if s.sleepList == [] {
      NobodyAsleep(s);
    } else {
      HeadSleeps(s);
      if Due(s, s.sleepList[0]) {
        WakeOneFrees(s);
        var r := WakeOne(s);
        WakeOneKeeps(s, r);
        StillUnhidden(s, r);
        WakeupNext(s);
        WokenUnlessHidden(r);
        forall i: nat ensures WokenIfDue(s, Wakeup(r), i) {
          WokenStep(s, Wakeup(r), i);
        }
      } else {
        SortedList(s);
        NoneDue(s);
        NobodyWoken(s);
      }
    }
  }

  lemma SortedList(s: Sys)
    requires Base(s)
    ensures Links(s) && SleepSorted(s)
  {
    hide Table, Family, Serials, WaitJustified, Links, SleepSorted;
  }

  lemma NobodyAsleep(s: Sys)
    requires Base(s) && s.sleepList == []
    ensures forall i: nat :: WokenIfDue(s, Wakeup(s), i)
  {
    assert forall i :: !In(s, i, Sleeping);
    hide Base;
  }

  lemma HeadSleeps(s: Sys)
    requires Base(s) && s.sleepList != []
    ensures In(s, s.sleepList[0], Sleeping) && Is(s, s.sleepList[0]) && |s.tasks| == NR_TASKS
  {
    hide Family, Serials, WaitJustified, SleepSorted;
  }

  lemma StillUnhidden(s: Sys, r: Sys)
    requires s.sleepList != [] && Freed(s, r, s.sleepList[0]) && forall a: nat, b: nat :: !Hides(s, a, b)
    ensures forall a: nat, b: nat :: !Hides(r, a, b)
  {
    hide DropAll;
    forall a: nat, b: nat ensures !Hides(r, a, b) {
      assert Hides(r, a, b) ==> Hides(s, a, b);
    }
  }

  lemma WakeupNext(s: Sys)
    requires |s.tasks| == NR_TASKS && s.sleepList != [] && Is(s, s.sleepList[0]) && Due(s, s.sleepList[0])
    ensures |WakeOne(s).tasks| == NR_TASKS && Wakeup(s) == Wakeup(WakeOne(s)) && |WakeOne(s).sleepList| < |s.sleepList|
  {
    hide DropAll;
  }

  lemma NobodyWoken(s: Sys)
    requires |s.tasks| == NR_TASKS && s.sleepList != [] && !Due(s, s.sleepList[0])
    requires forall i: nat :: In(s, i, Sleeping) ==> !Due(s, i)
    ensures forall i: nat :: WokenIfDue(s, Wakeup(s), i)
  {
    assert Wakeup(s) == s;
    hide Due;
  }

  lemma WokenStep(s: Sys, w: Sys, i: nat)
    requires s.sleepList != [] && Is(s, s.sleepList[0]) && In(s, s.sleepList[0], Sleeping) && Due(s, s.sleepList[0])
    requires WokenIfDue(WakeOne(s), w, i)
    ensures WokenIfDue(s, w, i)
  {
  }

  // The list is sorted by the signed tick, which only differs from the order of the
  // unsigned ones where the sign does.
  lemma NoneDue(s: Sys)
    requires Links(s) && SleepSorted(s) && s.sleepList != [] && !Due(s, s.sleepList[0])
    requires forall a: nat, b: nat :: !Hides(s, a, b)
    ensures forall i: nat :: In(s, i, Sleeping) ==> !Due(s, i)
  {
    var h := s.sleepList[0];
    assert In(s, h, Sleeping);
    forall i: nat | In(s, i, Sleeping) ensures !Due(s, i) {
      var k :| 0 <= k < |s.sleepList| && s.sleepList[k] == i;
      assert k > 0 ==> InOrder(s, s.sleepList[0], s.sleepList[k]);
      assert Keyed(s, s.sleepList[0]) && Keyed(s, s.sleepList[k]);
      assert !Hides(s, h, i);
    }
  }

  // Whoever is hidden goes on sleeping.
  lemma {:induction false} HiddenStays(s: Sys, a: nat, b: nat)
    requires Base(s) && NoneElse(s) && Hides(s, a, b)
    ensures In(Wakeup(s), b, Sleeping)
    decreases |s.sleepList|
  {
    assert a in s.sleepList && b in s.sleepList;
    var h := s.sleepList[0];
    assert In(s, h, Sleeping);
    if Due(s, h) {
      var k :| 0 <= k < |s.sleepList| && s.sleepList[k] == a;
      assert InOrder(s, s.sleepList[0], s.sleepList[k]);
      WakeOneFrees(s);
      var r := WakeOne(s);
      WakeOneKeeps(s, r);
      assert Hides(r, a, b);
      hide Base, NoneElse, Hides;
      HiddenStays(r, a, b);
      assert Wakeup(s) == Wakeup(r);
    }
  }

  // No sleep reaches further than 2^32 milliseconds, so for the first 2^31 - 429496729
  // ticks nobody hides anybody.
  lemma ExactWhileYoung(s: Sys)
    requires Base(s) && NoneElse(s) && s.jiffies < TWO31 - MAX_SLEEP
    ensures forall i: nat :: WokenIfDue(s, Wakeup(s), i)
  {
    forall a: nat, b: nat ensures !Hides(s, a, b) {
      if In(s, a, Sleeping) {
        var k :| 0 <= k < |s.sleepList| && s.sleepList[k] == a;
        assert Keyed(s, s.sleepList[k]);
      }
    }
    hide Base, NoneElse, Hides;
    WokenUnlessHidden(s);
  }

  // The tick a sleeper waits for is kept modulo 2^32: it is due at once exactly if its
  // sleep crosses the wrap of the clock, or ends on it - then schedule has put its
  // priority in the place of the tick 0.
  lemma DueAtOnce(s: Sys, ms: uint32)
    requires Inv(s) && s.current != 0 && |s.tasks| == NR_TASKS && Sleep(s, ms).Ok?
    ensures var r := Sleep(s, ms).value;
      && In(r, s.current, Sleeping)
      && (Due(r, s.current) <==>
            WakeTick(s, ms) > TWO32 || (WakeTick(s, ms) == TWO32 && s.tasks[s.current].task.priority <= s.jiffies))
  {
    hide *;
    CurrentFree(s);
    WakeSoon(s, ms);
    ClockFits(s);
    Sleeps(s, ms);
    var a := Asleep(s, WakeTick(s, ms));
    ScheduleTasks(a);
    DueOnce(s, a, Schedule(a).value, WakeTick(s, ms));
  }

  lemma ClockFits(s: Sys)
    requires Inv(s)
    ensures s.jiffies < TWO32 && Is(s, s.current)
  {
    hide Family, Serials, WaitJustified, Links, SleepSorted;
  }

  lemma Sleeps(s: Sys, ms: uint32)
    requires |s.tasks| == NR_TASKS && Is(s, s.current) && Sleep(s, ms).Ok?
    ensures var a := Asleep(s, WakeTick(s, ms)); |a.tasks| == NR_TASKS && Schedule(a).Ok? && Sleep(s, ms) == Schedule(a)
  {
    hide Linked, WakeTick, Schedule, InsertSorted;
  }

  lemma DueOnce(s: Sys, a: Sys, r: Sys, wake: nat)
    requires Is(s, s.current) && s.current != 0 && a == Asleep(s, wake) && IsRescheduled(a, r)
    requires s.jiffies < wake <= s.jiffies + MAX_SLEEP && s.jiffies < TWO32
    ensures In(r, s.current, Sleeping)
    ensures Due(r, s.current) <==> wake > TWO32 || (wake == TWO32 && s.tasks[s.current].task.priority <= s.jiffies)
  {
    hide InsertSorted;
    assert In(a, s.current, Sleeping) && a.current == s.current && a.jiffies == s.jiffies;
    assert Is(r, s.current) && r.tasks[s.current].task == Rescheduled(a, r.current, s.current);
  }

  lemma TickKeeps(s: Sys)
    requires Inv(s)
    ensures |s.tasks| == NR_TASKS && Tick(s).Ok? && Inv(Tick(s).value)
  {
    WakeupKeeps(s);
    var s1 := Wakeup(s);
    assert |s1.tasks| == NR_TASKS && In(s1, s1.current, Running);
    hide Base, Wakeup, Schedule, NoneElse, Ticked;
    TickedKeeps(s1);
    if TicksOf(Ticked(s1), Ticked(s1).current) == 0 {
      ScheduleKeeps(Ticked(s1));
    }
  }

  // A clock tick wakes by the clock as it was, sets it forward by one, and takes one of
  // its ticks from the running task, which notes the time.  With none left it gets a new
  // round of them, and the processor goes to another ready task.
  lemma TickMeans(s: Sys)
    requires Inv(s) && |s.tasks| == NR_TASKS && Tick(s).Ok?
    ensures Wakeup(s).current == s.current && Ticks(s, Wakeup(s), Tick(s).value)
  {
    WakeupKeeps(s);
    var w := Wakeup(s);
    RunningAt(s, w);
    hide *;
    TickedMeans(s, w);
    TickIs(s);
    if TicksOf(Ticked(w), w.current) == 0 {
      ScheduleTasks(Ticked(w));
      ScheduleChooses(Ticked(w));
      TickScheduled(s, w, Ticked(w), Schedule(Ticked(w)).value);
    } else {
      TickQuiet(s, w, Ticked(w));
    }
  }

  ghost predicate Ticks(s: Sys, w: Sys, r: Sys) {
    && Is(w, w.current) && Is(r, w.current) && OthersStay(w, r)
    && r.jiffies == (if s.jiffies == 0xFFFF_FFFF then 0 else s.jiffies + 1) && r.lists == w.lists && r.sleepList == w.sleepList
    && r.tasks[w.current].task.jiffies == r.jiffies
    && var left := w.tasks[w.current].task.ticks - 1;
       if left != 0 then r.current == w.current && In(r, w.current, Running) && r.tasks[w.current].task.ticks == left
       else r.tasks[w.current].task.ticks == w.tasks[w.current].task.priority
            && if forall i :: !Candidate(w, i) then r.current == 0 else Candidate(w, r.current)
  }

  // t is w with the clock and the running task's ticks moved on.
  ghost predicate TicksAt(s: Sys, w: Sys, t: Sys) {
    && Is(w, w.current) && Is(t, w.current) && t == w.(tasks := t.tasks, jiffies := t.jiffies) && t.tasks == w.tasks[w.current := t.tasks[w.current]]
    && t.jiffies == (if s.jiffies == 0xFFFF_FFFF then 0 else s.jiffies + 1)
    && t.tasks[w.current].task == w.tasks[w.current].task.(jiffies := t.jiffies, ticks := w.tasks[w.current].task.ticks - 1)
  }

  lemma RunningAt(s: Sys, w: Sys)
    requires Inv(s) && Base(w) && w.current == s.current && w.jiffies == s.jiffies && In(w, s.current, Running)
    ensures |w.tasks| == NR_TASKS && Is(w, w.current) && In(w, w.current, Running) && w.jiffies == s.jiffies && s.jiffies < 0x1_0000_0000
    ensures NR_TASKS == 64
  {
    hide Family, Serials, WaitJustified, Links, SleepSorted;
  }

  lemma TickedMeans(s: Sys, w: Sys)
    requires Is(w, w.current) && w.jiffies == s.jiffies < 0x1_0000_0000 && |w.tasks| == NR_TASKS
    ensures TicksAt(s, w, Ticked(w)) && |Ticked(w).tasks| == NR_TASKS
  {
  }

  lemma TickIs(s: Sys)
    requires |s.tasks| == NR_TASKS && Is(Wakeup(s), Wakeup(s).current) && |Ticked(Wakeup(s)).tasks| == NR_TASKS
    ensures var w := Wakeup(s); Tick(s) == if TicksOf(Ticked(w), w.current) == 0 then Schedule(Ticked(w)) else Ok(Ticked(w))
  {
    hide Schedule, Wakeup;
  }

  lemma TickScheduled(s: Sys, w: Sys, t: Sys, r: Sys)
    requires TicksAt(s, w, t) && IsRescheduled(t, r) && TicksOf(t, w.current) == 0 && In(w, w.current, Running)
    requires if forall i :: !Candidate(t, i) then r.current == 0 else exists l: seq<nat> :: Leaders(t, NR_TASKS, l) && r.current == l[|l| - 1]
    ensures Ticks(s, w, r)
  {
    assert forall i :: Candidate(t, i) == Candidate(w, i);
    assert OthersStay(w, r) by {
      hide Candidate;
    }
    assert (exists i :: Candidate(t, i)) ==> Candidate(t, r.current);
    hide OthersStay;
  }

  lemma TickQuiet(s: Sys, w: Sys, t: Sys)
    requires TicksAt(s, w, t) && TicksOf(t, w.current) != 0 && In(w, w.current, Running)
    ensures Ticks(s, w, t)
  {
  }

  lemma TickedKeeps(s: Sys)
    requires Base(s) && NoneElse(s) && In(s, s.current, Running) && (s.jiffies == TWO32 - 1 ==> s.sleepList == [])
    ensures Inv(Ticked(s)) && NoneElse(Ticked(s)) && |Ticked(s).tasks| == NR_TASKS
  {
    var r := Ticked(s);
    hide Table, Family, Serials, WaitJustified, Links, SleepSorted, Calm, Ticked, NoneElse;
    TickedCalm(s, r);
    CalmKin(s, r);
    CalmLinks(s, r);
    hide OneRunning;
  }

  lemma TickedCalm(s: Sys, r: Sys)
    requires Table(s) && NoneElse(s) && In(s, s.current, Running) && (s.jiffies == TWO32 - 1 ==> s.sleepList == [])
    requires r == Ticked(s)
    ensures Calm(s, r) && Table(r) && OneRunning(r) && NoneElse(r) && |r.tasks| == NR_TASKS
  {
    var t := s.tasks[s.current].task;
    var u := r.tasks[s.current].task;
    assert u == t.(jiffies := u.jiffies, ticks := u.ticks) && r.jiffies < TWO32;
    assert r.tasks == s.tasks[s.current := Used(u)];
    hide Ticked;
    forall i | In(r, i, Running) ensures i == r.current {
      assert In(s, i, Running);
    }
  }

  // ---------- fork ----------

  // What fork copies, and the full round of ticks that the child starts with.
  ghost predicate Twins(parent: Task, child: Task) {
    && child.uid == parent.uid && child.priority == parent.priority && child.waitpid == parent.waitpid
    && child.status == parent.status && child.jiffies == parent.jiffies && child.ticks == parent.priority
  }

  lemma ForkKeeps(s: Sys)
    requires Inv(s)
    ensures |s.tasks| == NR_TASKS
    ensures Fork(s).Halt? ==> Fork(s).why == TableFull && forall i :: 0 <= i < NR_TASKS ==> Is(s, i)
    ensures Fork(s).Ok? ==>
      var (r, c) := Fork(s).value;
      && Inv(r) && !Is(s, c) && In(r, c, Ready) && r.tasks[c].task.ppid == s.current && r.tasks[c].task.serial == s.next
      && Twins(s.tasks[s.current].task, r.tasks[c].task)
      && (forall i :: 0 <= i < c ==> Is(s, i))
      && (forall i :: Is(s, i) ==> Is(r, i) && r.tasks[i] == s.tasks[i])
  {
    CurrentFree(s);
    hide Linked, Inv;
    if Fork(s).Ok? {
      var (r, c) := Fork(s).value;
      assert Born(s, r, c);
      BornInv(s, r, c);
    }
  }

  lemma BornInv(s: Sys, r: Sys, c: nat)
    requires Inv(s) && Born(s, r, c) && In(s, s.current, Running)
    ensures Inv(r)
  {
    hide Table, Family, Serials, WaitJustified, Links, SleepSorted, OneRunning, Born;
    BornTree(s, r, c);
    BornWaits(s, r, c);
    BornLinks(s, r, c);
  }

  // r is s with a new task in the free slot c.
  ghost predicate Born(s: Sys, r: Sys, c: nat) {
    && |s.tasks| == NR_TASKS && c < NR_TASKS == |r.tasks| && s.tasks[c].Free? && r.tasks == s.tasks[c := r.tasks[c]]
    && In(r, c, Ready) && r.tasks[c].task.ppid == s.current && r.tasks[c].task.serial == s.next
    && r == s.(tasks := r.tasks, next := s.next + 1)
  }

  lemma BornTree(s: Sys, r: Sys, c: nat)
    requires Family(s) && Serials(s) && Born(s, r, c) && In(s, s.current, Running)
    ensures Family(r) && Serials(r)
  {
    assert forall i :: Is(s, i) ==> Is(r, i) && r.tasks[i] == s.tasks[i];
    forall i | Is(r, i) && i != 0
      ensures ParentOf(r, i)
    {
      if i != c {
        assert ParentOf(s, i);
      }
    }
  }

  lemma BornWaits(s: Sys, r: Sys, c: nat)
    requires WaitJustified(s) && Born(s, r, c) && In(s, s.current, Running)
    ensures WaitJustified(r)
  {
    forall p: nat | In(r, p, Waiting)
      ensures exists d :: LiveChild(r, p, r.tasks[p].task.waitpid, d)
      ensures forall d :: IsChild(r, p, r.tasks[p].task.waitpid, d) ==> r.tasks[d].task.state != Died
    {
      assert In(s, p, Waiting);
      var d :| LiveChild(s, p, s.tasks[p].task.waitpid, d);
      assert LiveChild(r, p, r.tasks[p].task.waitpid, d);
      forall d | IsChild(r, p, r.tasks[p].task.waitpid, d) ensures r.tasks[d].task.state != Died {
        assert d != c ==> IsChild(s, p, s.tasks[p].task.waitpid, d);
      }
    }
  }

  lemma BornLinks(s: Sys, r: Sys, c: nat)
    requires Links(s) && SleepSorted(s) && Born(s, r, c) && Table(s) && OneRunning(s)
    ensures Links(r) && SleepSorted(r) && Table(r) && OneRunning(r)
  {
    forall x, st | st != Ready ensures In(r, x, st) <==> In(s, x, st) {
    }
    forall x | x in s.sleepList ensures KeepsTicks(s, r, x) {
      assert In(s, x, Sleeping);
    }
    hide Links, Ordered, KeepsTicks;
    StaysOrdered(s, r, s.sleepList);
  }

  // ---------- exit ----------

  // The current task dead, its children handed to its parent.
  function Dead(s: Sys, status: int): Sys
    requires Is(s, s.current)
  {
    var t := s.tasks[s.current].task;
    var s1 := Put(s, s.current, t.(state := Died, status := status));
    s1.(tasks := Reparent(s1.tasks, s1.current, t.ppid))
  }

  lemma DeadTasks(s: Sys, status: int)
    requires Inv(s) && s.current != 0
    ensures var r := Dead(s, status); var t := s.tasks[s.current].task;
      && |r.tasks| == NR_TASKS && t.ppid != s.current && Is(s, t.ppid) && s.tasks[t.ppid].task.state != Died
      && (forall i :: Is(r, i) <==> Is(s, i))
      && (forall i :: Is(s, i) ==>
            r.tasks[i].task == s.tasks[i].task.(
              ppid := if i >= 2 && s.tasks[i].task.ppid == s.current then t.ppid else s.tasks[i].task.ppid,
              state := if i == s.current then Died else s.tasks[i].task.state,
              status := if i == s.current then status else s.tasks[i].task.status))
  {
    hide Serials, WaitJustified, Links, SleepSorted;
    assert ParentOf(s, s.current);
  }

  lemma DeadFamily(s: Sys, status: int)
    requires Inv(s) && s.current != 0
    ensures Family(Dead(s, status)) && Serials(Dead(s, status))
  {
    DeadTasks(s, status);
    var r := Dead(s, status);
    hide WaitJustified, Links, SleepSorted, Dead;
    forall i | Is(r, i) && i != 0
      ensures ParentOf(r, i)
    {
      var p := s.tasks[i].task.ppid;
      assert ParentOf(s, i) && ParentOf(s, s.current);
    }
  }

  lemma DeadRest(s: Sys, status: int)
    requires Inv(s) && s.current != 0
    ensures var r := Dead(s, status);
      Table(r) && NoneElse(r) && Links(r) && SleepSorted(r) && !Linked(r, s.current)
  {
    CurrentFree(s);
    DeadTasks(s, status);
    var r := Dead(s, status);
    hide WaitJustified, Family, Serials, Dead;
    assert r == s.(tasks := r.tasks) by {
      DeadSame(s, status);
    }
    forall x, st | st != Running && st != Died ensures In(r, x, st) <==> In(s, x, st) {
    }
    assert forall i :: In(r, i, Running) ==> In(s, i, Running);
    forall x: nat ensures KeepsTicks(s, r, x) {
    }
    hide Links, Ordered, KeepsTicks;
    StaysOrdered(s, r, s.sleepList);
  }

  lemma DeadSame(s: Sys, status: int)
    requires Is(s, s.current)
    ensures Dead(s, status) == s.(tasks := Dead(s, status).tasks)
  {
  }

  // Who may go on waiting after the death: everybody but a parent that waited for it.
  lemma DeadWaits(s: Sys, status: int, p: nat)
    requires Inv(s) && s.current != 0
    requires var r := Dead(s, status);
      In(r, p, Waiting) && !(p == s.tasks[s.current].task.ppid && Matches(r.tasks[p].task.waitpid, s.current))
    ensures Justified(Dead(s, status), p)
  {
    DeadTasks(s, status);
    var r := Dead(s, status);
    WaiterJustified(s, p);
    hide Links, SleepSorted, Family, Serials, Dead, WaitJustified, Table;
    var w := s.tasks[p].task.waitpid;
    var c :| LiveChild(s, p, w, c);
    assert c != s.current;
    assert LiveChild(r, p, w, c);
    forall d | IsChild(r, p, w, d) ensures r.tasks[d].task.state != Died {
      // a child inherited from the dead task is not the one p waits for
      if w == -1 {
        assert p != s.tasks[s.current].task.ppid;
      } else {
        assert d == c;
      }
      assert IsChild(s, p, w, d) && d != s.current;
    }
  }

  // The task that ran is dead with its status, its children from slot 2 on belong to its
  // parent, and a parent that waited for it can run.  Nobody else's state changes, but
  // for who of the runnable tasks is running.
  ghost predicate Departed(s: Sys, r: Sys, status: int) {
    && Is(s, s.current) && r.reaped == s.reaped && |r.tasks| == |s.tasks|
    && (forall i :: Is(r, i) <==> Is(s, i))
    && In(r, s.current, Died) && r.tasks[s.current].task.status == status
    && (forall i :: Is(s, i) ==>
          r.tasks[i].task.ppid == HeirOf(s, i) && r.tasks[i].task.serial == s.tasks[i].task.serial && r.tasks[i].task.uid == s.tasks[i].task.uid)
    && (forall i :: Is(s, i) && i != s.current ==>
          if Runnable(s, i) || WaitsForCurrent(s, i) then Runnable(r, i) else r.tasks[i].task.state == s.tasks[i].task.state)
  }

  // The parent of i once the current task is dead.
  ghost function HeirOf(s: Sys, i: int): nat
    requires Is(s, s.current) && Is(s, i)
  {
    if i >= 2 && s.tasks[i].task.ppid == s.current then s.tasks[s.current].task.ppid else s.tasks[i].task.ppid
  }

  ghost predicate WaitsForCurrent(s: Sys, i: int) {
    Is(s, s.current) && i == s.tasks[s.current].task.ppid && In(s, i, Waiting) && Matches(s.tasks[i].task.waitpid, s.current)
  }

  // Task i of d, which is s with its current task dead.
  ghost predicate DeadAt(s: Sys, d: Sys, status: int, i: int) {
    && Is(s, s.current) && Is(s, i) && Is(d, i)
    && d.tasks[i].task == s.tasks[i].task.(
         ppid := HeirOf(s, i),
         state := if i == s.current then Died else s.tasks[i].task.state,
         status := if i == s.current then status else s.tasks[i].task.status)
  }

  // Task i of u, which is d with the waiting parent woken.
  ghost predicate WokenAt(s: Sys, d: Sys, u: Sys, i: int) {
    && Is(d, i) && Is(u, i)
    && if WaitsForCurrent(s, i) then u.tasks[i].task == d.tasks[i].task.(state := Ready, ticks := u.tasks[i].task.ticks)
       else u.tasks[i] == d.tasks[i]
  }

  ghost predicate DepartedAt(s: Sys, r: Sys, status: int, i: int) {
    && Is(s, s.current) && Is(s, i) && Is(r, i)
    && r.tasks[i].task.ppid == HeirOf(s, i) && r.tasks[i].task.serial == s.tasks[i].task.serial && r.tasks[i].task.uid == s.tasks[i].task.uid
    && if i == s.current then r.tasks[i].task.state == Died && r.tasks[i].task.status == status
       else if Runnable(s, i) || WaitsForCurrent(s, i) then Runnable(r, i)
       else r.tasks[i].task.state == s.tasks[i].task.state
  }

  lemma DepartedOne(s: Sys, d: Sys, u: Sys, r: Sys, status: int, i: int)
    requires DeadAt(s, d, status, i) && WokenAt(s, d, u, i) && IsRescheduled(u, r)
    requires u.current == s.current != 0 && !In(s, s.current, Waiting) && (Runnable(u, r.current) || r.current == 0)
    requires 0 <= i < NR_TASKS && (i == 0 ==> Runnable(s, 0))
    ensures DepartedAt(s, r, status, i)
  {
    assert Is(r, i);
  }

  lemma DepartedAll(s: Sys, r: Sys, status: int)
    requires Is(s, s.current) && r.reaped == s.reaped && |r.tasks| == |s.tasks|
    requires forall i :: Is(r, i) <==> Is(s, i)
    requires forall i {:trigger DepartedAt(s, r, status, i)} :: Is(s, i) ==> DepartedAt(s, r, status, i)
    ensures Departed(s, r, status)
  {
    assert DepartedAt(s, r, status, s.current);
    forall i | Is(s, i)
      ensures r.tasks[i].task.ppid == HeirOf(s, i) && r.tasks[i].task.serial == s.tasks[i].task.serial && r.tasks[i].task.uid == s.tasks[i].task.uid
      ensures i != s.current ==>
        if Runnable(s, i) || WaitsForCurrent(s, i) then Runnable(r, i) else r.tasks[i].task.state == s.tasks[i].task.state
    {
      assert DepartedAt(s, r, status, i);
    }
  }

  lemma DeadIsAt(s: Sys, status: int, i: int)
    requires Inv(s) && s.current != 0 && Is(s, i)
    ensures DeadAt(s, Dead(s, status), status, i)
  {
    DeadTasks(s, status);
    hide Dead;
  }

  lemma WokenIsAt(s: Sys, d: Sys, u: Sys, i: int)
    requires Is(s, s.current) && Is(s, i) && Is(d, i)
    requires var p := s.tasks[s.current].task.ppid;
      if WaitsForCurrent(s, p) then Freed(d, u, p) else u == d
    ensures WokenAt(s, d, u, i)
  {
    hide DropAll;
  }

  lemma DepartedTask(s: Sys, u: Sys, r: Sys, status: int, i: int)
    requires Inv(s) && s.current != 0 && Is(s, i) && IsRescheduled(u, r) && u.current == s.current && Is(s, s.current)
    requires var p := s.tasks[s.current].task.ppid;
      if WaitsForCurrent(s, p) then Freed(Dead(s, status), u, p) else u == Dead(s, status)
    ensures DepartedAt(s, r, status, i)
  {
    hide *;
    var d := Dead(s, status);
    DeadIsAt(s, status, i);
    DeadHas(s, d, status, i);
    WokenIsAt(s, d, u, i);
    CurrentFree(s);
    SlotBound(s, i);
    NextRunnable(u, r, i);
    DepartedOne(s, d, u, r, status, i);
  }

  lemma DeadHas(s: Sys, d: Sys, status: int, i: int)
    requires DeadAt(s, d, status, i)
    ensures Is(d, i)
  {
  }

  lemma SlotBound(s: Sys, i: int)
    requires Inv(s) && Is(s, i)
    ensures 0 <= i < NR_TASKS && Runnable(s, 0) && In(s, s.current, Running) && !In(s, s.current, Waiting)
  {
    hide Family, Serials, WaitJustified, Links, SleepSorted;
  }

  lemma NextRunnable(u: Sys, r: Sys, i: int)
    requires IsRescheduled(u, r)
    ensures Runnable(u, r.current) || r.current == 0
  {
    hide Rescheduled;
  }

  // Departed, before schedule.
  lemma DepartedAfter(s: Sys, d: Sys, u: Sys, status: int)
    requires Inv(s) && s.current != 0 && d == Dead(s, status) && |u.tasks| == NR_TASKS && Schedule(u).Ok?
    requires var p := s.tasks[s.current].task.ppid;
      if WaitsForCurrent(s, p) then Freed(d, u, p) else u == d
    ensures Departed(s, Schedule(u).value, status)
  {
    hide *;
    var r := Schedule(u).value;
    ScheduleTasks(u);
    DeadFields(s, d, u, r, status);
    forall i | Is(s, i) ensures DepartedAt(s, r, status, i) {
      DepartedTask(s, u, r, status, i);
    }
    DepartedAll(s, r, status);
  }

  lemma DeadFields(s: Sys, d: Sys, u: Sys, r: Sys, status: int)
    requires Inv(s) && s.current != 0 && d == Dead(s, status) && IsRescheduled(u, r)
    requires var p := s.tasks[s.current].task.ppid;
      if WaitsForCurrent(s, p) then Freed(d, u, p) else u == d
    ensures u.current == s.current && r.reaped == s.reaped && |r.tasks| == |s.tasks| && Is(s, s.current) && forall i :: Is(r, i) <==> Is(s, i)
  {
    DeadTasks(s, status);
    DeadSame(s, status);
    hide Family, Serials, WaitJustified, Links, SleepSorted, Dead, DropAll, Rescheduled;
    assert forall i :: Is(u, i) <==> Is(d, i);
    assert forall i :: Is(r, i) <==> Is(u, i);
  }

  // taskExit keeps the protocol, ends with another task running, and leaves what
  // Departed says; it stops the kernel exactly for a kernel task.
  lemma ExitKeeps(s: Sys, status: int)
    requires Inv(s)
    ensures |s.tasks| == NR_TASKS
    ensures Exit(s, status).Halt? <==> s.tasks[s.current].task.uid == KERNEL_USER
    ensures Exit(s, status).Ok? ==> Inv(Exit(s, status).value) && Departed(s, Exit(s, status).value, status)
  {
    CurrentFree(s);
    if s.tasks[s.current].task.uid != KERNEL_USER {
      assert s.current != 0;
      DeadFamily(s, status);
      DeadRest(s, status);
      DeadTasks(s, status);
      var r := Dead(s, status);
      var p := s.tasks[s.current].task.ppid;
      ExitIs(s, status);
      hide Exit, Dead, Table, Family, Serials, WaitJustified, Links, SleepSorted, NoneElse, OneRunning, Schedule, Linked, Unblock;
      if In(r, p, Waiting) && Matches(r.tasks[p].task.waitpid, s.current) {
        forall q: nat | In(r, q, Waiting) && q != p ensures Justified(r, q) {
          DeadWaits(s, status, q);
        }
        UnblockFrees(r, p);
        hide Justified, Freed;
        FreedBase(r, Unblock(r, p).value, p);
        ScheduleKeeps(Unblock(r, p).value);
        DepartedAfter(s, r, Unblock(r, p).value, status);
      } else {
        forall q: nat | In(r, q, Waiting) ensures Justified(r, q) {
          DeadWaits(s, status, q);
        }
        hide Justified;
        JustifiedAll(r);
        ScheduleKeeps(r);
        DepartedAfter(s, r, r, status);
      }
    }
  }

  lemma JustifiedAll(s: Sys)
    requires forall p: nat :: In(s, p, Waiting) ==> Justified(s, p)
    ensures WaitJustified(s)
  {
    forall p: nat | In(s, p, Waiting)
      ensures exists c :: LiveChild(s, p, s.tasks[p].task.waitpid, c)
      ensures forall c :: IsChild(s, p, s.tasks[p].task.waitpid, c) ==> s.tasks[c].task.state != Died
    {
      assert Justified(s, p);
    }
  }

  lemma UnblockFrees(s: Sys, p: nat)
    requires |s.tasks| == NR_TASKS && Links(s) && In(s, p, Waiting) && |s.lists| > 0
    ensures Unblock(s, p).Ok? && Freed(s, Unblock(s, p).value, p) && |Unblock(s, p).value.tasks| == NR_TASKS
  {
    assert Linked(s, p);
  }

  lemma ExitIs(s: Sys, status: int)
    requires |s.tasks| == NR_TASKS && In(s, s.current, Running) && !Linked(s, s.current)
    requires s.tasks[s.current].task.uid != KERNEL_USER
    ensures var r := Dead(s, status); var p := s.tasks[s.current].task.ppid;
      |r.tasks| == NR_TASKS && |r.lists| == |s.lists| && (Is(r, p) ==>
        Exit(s, status) ==
          if In(r, p, Waiting) && Matches(r.tasks[p].task.waitpid, s.current) then
            (if Unblock(r, p).Halt? then Halt(Unblock(r, p).why)
             else if |Unblock(r, p).value.tasks| != NR_TASKS then Halt(Undefined) else Schedule(Unblock(r, p).value))
          else Schedule(r))
  {
    hide Schedule, Unblock, Linked;
  }

  // ---------- waitpid ----------

  lemma ReapedKeeps(s: Sys, d: nat)
    requires Inv(s) && In(s, d, Died) && d >= 2
    ensures Inv(s.(tasks := s.tasks[d := Free], reaped := s.reaped + [s.tasks[d].task.serial]))
  {
    var r := s.(tasks := s.tasks[d := Free], reaped := s.reaped + [s.tasks[d].task.serial]);
    hide Table, Family, Serials, WaitJustified, Links, SleepSorted, OneRunning;
    ReapedTable(s, r, d);
    ReapedTree(s, r, d);
    ReapedWaits(s, r, d);
    ReapedLinks(s, r, d);
  }

  lemma ReapedTable(s: Sys, r: Sys, d: nat)
    requires Table(s) && OneRunning(s) && Buried(s, r, d)
    ensures Table(r) && OneRunning(r)
  {
    assert forall i :: In(r, i, Running) ==> In(s, i, Running);
  }

  ghost predicate Buried(s: Sys, r: Sys, d: nat) {
    && In(s, d, Died) && d >= 2
    && r == s.(tasks := s.tasks[d := Free], reaped := s.reaped + [s.tasks[d].task.serial])
  }

  lemma ReapedTree(s: Sys, r: Sys, d: nat)
    requires Family(s) && Serials(s) && Buried(s, r, d)
    ensures Family(r) && Serials(r)
  {
    assert forall i :: Is(r, i) <==> Is(s, i) && i != d;
    forall i | Is(r, i) && i != 0
      ensures ParentOf(r, i)
    {
      assert ParentOf(s, i);
    }
    var x := s.tasks[d].task.serial;
    assert forall k :: 0 <= k < |s.reaped| ==> s.reaped[k] != x;
  }

  lemma ReapedWaits(s: Sys, r: Sys, d: nat)
    requires WaitJustified(s) && Buried(s, r, d)
    ensures WaitJustified(r)
  {
    forall p: nat | In(r, p, Waiting)
      ensures exists c :: LiveChild(r, p, r.tasks[p].task.waitpid, c)
      ensures forall c :: IsChild(r, p, r.tasks[p].task.waitpid, c) ==> r.tasks[c].task.state != Died
    {
      assert In(s, p, Waiting);
      var c :| LiveChild(s, p, s.tasks[p].task.waitpid, c);
      assert LiveChild(r, p, r.tasks[p].task.waitpid, c);
      forall c | IsChild(r, p, r.tasks[p].task.waitpid, c) ensures r.tasks[c].task.state != Died {
        assert IsChild(s, p, s.tasks[p].task.waitpid, c);
      }
    }
  }

  lemma ReapedLinks(s: Sys, r: Sys, d: nat)
    requires Links(s) && SleepSorted(s) && Buried(s, r, d)
    ensures Links(r) && SleepSorted(r)
  {
    forall x, st | st != Died ensures In(r, x, st) <==> In(s, x, st) {
    }
    forall x | x in s.sleepList ensures KeepsTicks(s, r, x) {
      assert In(s, x, Sleeping);
    }
    hide Links, Ordered, KeepsTicks;
    StaysOrdered(s, r, s.sleepList);
  }

  // What the caller of waitpid may conclude from its answer.
  lemma WaitpidMeans(s: Sys, pid: int)
    requires Inv(s) && s.current != 0
    ensures |s.tasks| == NR_TASKS && |s.lists| > 0 && Waitpid(s, pid).Ok?
    ensures var (r, answer) := Waitpid(s, pid).value;
      && Inv(r)
      && match answer
         case Reaped(d, status) =>
           // the first dead child that matches, never seen before, and nobody else's
           && IsChild(s, s.current, pid, d) && In(s, d, Died) && s.tasks[d].task.status == status && !Is(r, d)
           && (forall c :: 0 <= c < d ==> !(IsChild(s, s.current, pid, c) && In(s, c, Died)))
           && s.tasks[d].task.serial !in s.reaped && r.reaped == s.reaped + [s.tasks[d].task.serial]
         case NoChild => r == s && forall c :: !IsChild(s, s.current, pid, c)
         case MustWait =>
           && In(r, s.current, Waiting) && (exists c :: LiveChild(s, s.current, pid, c))
           && r.reaped == s.reaped && forall c :: IsChild(s, s.current, pid, c) ==> !In(s, c, Died)
  {
    CurrentFree(s);
    SerialFresh(s);
    hide *;
    var d := DeadChild(s, s.current, pid, 2);
    if d < NR_TASKS {
      ReapedAnswer(s, pid);
      ReapedKeeps(s, d);
    } else if exists i :: 2 <= i < NR_TASKS && IsChild(s, s.current, pid, i) {
      ChildrenLive(s, pid);
      WaitKeeps(s, pid);
      WaitAnswer(s, pid);
    } else {
      NoChildAnswer(s, pid);
    }
  }

  lemma ReapedAnswer(s: Sys, pid: int)
    requires |s.tasks| == NR_TASKS && |s.lists| > 0 && DeadChild(s, s.current, pid, 2) < NR_TASKS
    ensures var d := DeadChild(s, s.current, pid, 2);
      && IsChild(s, s.current, pid, d) && In(s, d, Died) && d >= 2
      && (forall c :: 0 <= c < d ==> !(IsChild(s, s.current, pid, c) && In(s, c, Died)))
      && var r := s.(tasks := s.tasks[d := Free], reaped := s.reaped + [s.tasks[d].task.serial]);
         Waitpid(s, pid) == Ok((r, Reaped(d, s.tasks[d].task.status))) && !Is(r, d)
  {
    hide Block;
  }

  lemma NoChildAnswer(s: Sys, pid: int)
    requires |s.tasks| == NR_TASKS && |s.lists| > 0 && DeadChild(s, s.current, pid, 2) >= NR_TASKS
    requires !exists i :: 2 <= i < NR_TASKS && IsChild(s, s.current, pid, i)
    ensures Waitpid(s, pid) == Ok((s, NoChild)) && forall c :: !IsChild(s, s.current, pid, c)
  {
    hide Block, DeadChild;
    forall c ensures !IsChild(s, s.current, pid, c) {
      assert IsChild(s, s.current, pid, c) ==> 2 <= c < NR_TASKS;
    }
  }

  lemma ChildrenLive(s: Sys, pid: int)
    requires |s.tasks| == NR_TASKS && DeadChild(s, s.current, pid, 2) >= NR_TASKS
    requires exists i :: 2 <= i < NR_TASKS && IsChild(s, s.current, pid, i)
    ensures forall c :: IsChild(s, s.current, pid, c) ==> !In(s, c, Died)
    ensures exists c :: LiveChild(s, s.current, pid, c)
  {
    var d := DeadChild(s, s.current, pid, 2);
    hide DeadChild;
    var i :| 2 <= i < NR_TASKS && IsChild(s, s.current, pid, i);
    assert LiveChild(s, s.current, pid, i);
  }

  lemma WaitAnswer(s: Sys, pid: int)
    requires |s.tasks| == NR_TASKS && |s.lists| > 0 && DeadChild(s, s.current, pid, 2) >= NR_TASKS && Is(s, s.current)
    requires exists i :: 2 <= i < NR_TASKS && IsChild(s, s.current, pid, i)
    requires Block(Put(s, s.current, s.tasks[s.current].task.(waitpid := pid)), 0, Waiting).Ok?
    ensures Waitpid(s, pid) == Ok((Block(Put(s, s.current, s.tasks[s.current].task.(waitpid := pid)), 0, Waiting).value, MustWait))
  {
    hide Block, DeadChild, IsChild;
  }

  lemma SerialFresh(s: Sys)
    requires Inv(s)
    ensures |s.lists| > 0 && forall i :: Is(s, i) ==> s.tasks[i].task.serial !in s.reaped
  {
  }

  lemma WaitKeeps(s: Sys, pid: int)
    requires Inv(s) && s.current != 0 && |s.tasks| == NR_TASKS && |s.lists| > 0 && Is(s, s.current)
    requires exists c :: LiveChild(s, s.current, pid, c)
    requires forall c :: IsChild(s, s.current, pid, c) ==> !In(s, c, Died)
    ensures var r := Block(Put(s, s.current, s.tasks[s.current].task.(waitpid := pid)), 0, Waiting);
      r.Ok? && Inv(r.value) && In(r.value, s.current, Waiting) && r.value.reaped == s.reaped
  {
    var s1 := Put(s, s.current, s.tasks[s.current].task.(waitpid := pid));
    PidSet(s, s1, pid);
    hide Inv, Schedule;
    BlockKeeps(s1, 0, Waiting);
    WaiterWaits(s1);
  }

  lemma PidSet(s: Sys, r: Sys, pid: int)
    requires Inv(s) && s.current != 0 && Is(s, s.current)
    requires r == Put(s, s.current, s.tasks[s.current].task.(waitpid := pid))
    requires exists c :: LiveChild(s, s.current, pid, c)
    requires forall c :: IsChild(s, s.current, pid, c) ==> !In(s, c, Died)
    ensures Inv(r) && Justified(r, s.current)
  {
    CurrentFree(s);
    var c :| LiveChild(s, s.current, pid, c);
    assert LiveChild(r, s.current, pid, c);
    forall d | IsChild(r, s.current, pid, d) ensures r.tasks[d].task.state != Died {
      assert IsChild(s, s.current, pid, d);
    }
    PidSetRest(s, r, pid);
    hide Inv;
  }

  lemma PidSetRest(s: Sys, r: Sys, pid: int)
    requires Inv(s) && s.current != 0 && Is(s, s.current) && In(s, s.current, Running)
    requires r == Put(s, s.current, s.tasks[s.current].task.(waitpid := pid))
    ensures Inv(r)
  {
    hide WaitJustified, Links, SleepSorted, Family, Serials, Table, OneRunning;
    PidSetWaits(s, r, pid);
    PidSetLinks(s, r, pid);
    PidSetTree(s, r, pid);
  }

  lemma PidSetTree(s: Sys, r: Sys, pid: int)
    requires Family(s) && Serials(s) && Table(s) && OneRunning(s) && Is(s, s.current)
    requires r == Put(s, s.current, s.tasks[s.current].task.(waitpid := pid))
    ensures Family(r) && Serials(r) && Table(r) && OneRunning(r)
  {
    forall i | Is(r, i) && i != 0
      ensures ParentOf(r, i)
    {
      assert ParentOf(s, i);
    }
    assert forall i :: In(r, i, Running) ==> In(s, i, Running);
  }

  lemma PidSetWaits(s: Sys, r: Sys, pid: int)
    requires WaitJustified(s) && In(s, s.current, Running)
    requires r == Put(s, s.current, s.tasks[s.current].task.(waitpid := pid))
    ensures WaitJustified(r)
  {
    forall p: nat | In(r, p, Waiting)
      ensures exists c :: LiveChild(r, p, r.tasks[p].task.waitpid, c)
      ensures forall c :: IsChild(r, p, r.tasks[p].task.waitpid, c) ==> r.tasks[c].task.state != Died
    {
      assert In(s, p, Waiting);
      var c :| LiveChild(s, p, s.tasks[p].task.waitpid, c);
      assert LiveChild(r, p, r.tasks[p].task.waitpid, c);
      forall c | IsChild(r, p, r.tasks[p].task.waitpid, c) ensures r.tasks[c].task.state != Died {
        assert IsChild(s, p, s.tasks[p].task.waitpid, c);
      }
    }
  }

  lemma PidSetLinks(s: Sys, r: Sys, pid: int)
    requires Links(s) && SleepSorted(s) && Is(s, s.current)
    requires r == Put(s, s.current, s.tasks[s.current].task.(waitpid := pid))
    ensures Links(r) && SleepSorted(r)
  {
    forall x, st ensures In(r, x, st) <==> In(s, x, st) {
    }
    forall x: nat ensures KeepsTicks(s, r, x) {
    }
    hide Links, Ordered, KeepsTicks;
    StaysOrdered(s, r, s.sleepList);
  }

  lemma WaiterWaits(s: Sys)
    requires Inv(s) && s.current != 0 && |s.lists| > 0 && |s.tasks| == NR_TASKS && Block(s, 0, Waiting).Ok?
    ensures In(Block(s, 0, Waiting).value, s.current, Waiting) && Block(s, 0, Waiting).value.reaped == s.reaped
  {
    CurrentFree(s);
    hide Family, Serials, WaitJustified, Links, SleepSorted, Linked;
    ScheduleTasks(Gone(s, 0, Waiting));
  }

  // ---------- fork, exit and waitpid together ----------

  // The same tasks with the same parents, alive or dead.
  ghost predicate SameTree(s: Sys, r: Sys) {
    && |r.tasks| == |s.tasks| && (forall i :: Is(r, i) <==> Is(s, i))
    && forall i :: Is(s, i) ==>
         var t, u := s.tasks[i].task, r.tasks[i].task;
         u.ppid == t.ppid && u.serial == t.serial && u.uid == t.uid && (u.state == Died <==> t.state == Died)
  }

  // A child is forked in state s; in some later state q with the same tree it exits; and in
  // a still later state t with the tree that this has left its parent waits for it.  Then
  // exit is not refused, because the parent is a user's task and so is the child, waitpid
  // returns the child with its status, and the tree is that of s.
  lemma ForkExitWaitTree(s: Sys, q: Sys, status: int, t: Sys)
    requires Inv(s) && s.current != 0 && |s.tasks| == NR_TASKS && Fork(s).Ok?
    requires Is(s, s.current) && s.tasks[s.current].task.uid != KERNEL_USER
    requires var (r, c) := Fork(s).value; Inv(q) && |q.tasks| == NR_TASKS && SameTree(r, q) && q.current == c
    requires Inv(t) && |t.tasks| == NR_TASKS && |t.lists| > 0 && t.current == s.current
    requires Exit(q, status).Ok? ==>
      var e := Exit(q, status).value;
      SameTree(e, t) && t.tasks[q.current] == e.tasks[q.current]
    ensures Exit(q, status).Ok?
    ensures Waitpid(t, q.current).Ok?
    ensures var (w, answer) := Waitpid(t, q.current).value;
      answer == Reaped(q.current, status) && SameTree(s, w) && w.reaped == t.reaped + [s.next]
  {
    hide *;
    var (r, c) := Fork(s).value;
    ForkKeeps(s);
    Childless(s, r, c);
    ExitKeeps(q, status);
    ChildMayExit(s, r, q, c);
    var e := Exit(q, status).value;
    OnlyHeDied(s, r, q, e, c, status);
    OneDead(s, e, t, c, status);
    ReapedAlone(t, c, status);
    TreeBack(s, t, c);
  }

  // What the table is while the child is alive.
  lemma Childless(s: Sys, r: Sys, c: nat)
    requires Inv(s) && |s.tasks| == NR_TASKS && Fork(s).Ok? && Fork(s).value == (r, c)
    ensures 2 <= c < NR_TASKS && |r.tasks| == NR_TASKS && !Is(s, c) && s.current != c
    ensures r.tasks == s.tasks[c := r.tasks[c]] && Is(r, c) && r.tasks[c].task.ppid == s.current
    ensures r.tasks[c].task.serial == s.next && r.tasks[c].task.state == Ready
    ensures forall i :: Is(s, i) && i >= 2 ==> s.tasks[i].task.ppid != c
  {
    CurrentFree(s);
    assert Is(s, 0) && Is(s, 1);
    hide Serials, WaitJustified, Links, SleepSorted, Linked;
    forall i | Is(s, i) && i >= 2 ensures s.tasks[i].task.ppid != c {
      assert ParentOf(s, i);
    }
  }

  // The child has the user of its parent.
  lemma ChildMayExit(s: Sys, r: Sys, q: Sys, c: nat)
    requires Is(s, s.current) && Is(r, c) && Twins(s.tasks[s.current].task, r.tasks[c].task)
    requires SameTree(r, q) && q.current == c
    ensures Is(q, q.current) && q.tasks[q.current].task.uid == s.tasks[s.current].task.uid
  {
  }

  // Exit of a task without children changes nobody's parent.
  lemma OnlyHeDied(s: Sys, r: Sys, q: Sys, e: Sys, c: nat, status: int)
    requires 2 <= c < NR_TASKS && !Is(s, c) && s.current != c && |s.tasks| == NR_TASKS
    requires Is(r, c) && r.tasks == s.tasks[c := r.tasks[c]] && r.tasks[c].task.ppid == s.current && r.tasks[c].task.serial == s.next
    requires forall i :: Is(s, i) && i >= 2 ==> s.tasks[i].task.ppid != c
    requires SameTree(r, q) && q.current == c && Departed(q, e, status)
    ensures DiedFrom(s, e, c, status)
  {
    forall i | Is(s, i)
      ensures Is(e, i) && e.tasks[i].task.ppid == s.tasks[i].task.ppid && e.tasks[i].task.serial == s.tasks[i].task.serial
      ensures e.tasks[i].task.uid == s.tasks[i].task.uid && (e.tasks[i].task.state == Died <==> s.tasks[i].task.state == Died)
    {
      assert Is(r, i) && Is(q, i) && r.tasks[i] == s.tasks[i];
    }
    hide HeirOf, Runnable, WaitsForCurrent;
  }

  // e is the table of s with a dead task in slot c.
  ghost predicate DiedFrom(s: Sys, e: Sys, c: nat, status: int) {
    && |e.tasks| == |s.tasks| == NR_TASKS && 2 <= c < NR_TASKS && !Is(s, c)
    && In(e, c, Died) && e.tasks[c].task.status == status && e.tasks[c].task.ppid == s.current && e.tasks[c].task.serial == s.next
    && (forall i :: Is(e, i) <==> Is(s, i) || i == c)
    && forall i :: Is(s, i) ==>
         var t, u := s.tasks[i].task, e.tasks[i].task;
         u.ppid == t.ppid && u.serial == t.serial && u.uid == t.uid && (u.state == Died <==> t.state == Died)
  }

  lemma OneDead(s: Sys, e: Sys, t: Sys, c: nat, status: int)
    requires DiedFrom(s, e, c, status) && SameTree(e, t) && t.tasks[c] == e.tasks[c]
    ensures DiedFrom(s, t, c, status)
  {
  }

  lemma ReapedAlone(t: Sys, c: nat, status: int)
    requires |t.tasks| == NR_TASKS && |t.lists| > 0 && 2 <= c < NR_TASKS && In(t, c, Died)
    requires t.tasks[c].task.ppid == t.current && t.tasks[c].task.status == status
    ensures Waitpid(t, c) == Ok((t.(tasks := t.tasks[c := Free], reaped := t.reaped + [t.tasks[c].task.serial]), Reaped(c, status)))
  {
    var d := DeadChild(t, t.current, c, 2);
    assert IsChild(t, t.current, c, c);
    hide DeadChild, Block;
  }

  lemma TreeBack(s: Sys, t: Sys, c: nat)
    requires |s.tasks| == NR_TASKS && exists status :: DiedFrom(s, t, c, status)
    ensures SameTree(s, t.(tasks := t.tasks[c := Free], reaped := t.reaped + [t.tasks[c].task.serial]))
  {
  }

  // ---------- runs ----------

  // Every step of every task keeps the invariant; the only failures are a full task
  // table on fork and an exit of a kernel task.
  lemma StepKeeps(s: Sys, e: Event)
    requires Inv(s) && Possible(s, e)
    ensures |s.tasks| == NR_TASKS
    ensures Step(s, e).Ok? ==> Inv(Step(s, e).value)
    ensures Step(s, e).Halt? ==>
      (e.DoFork? && Step(s, e).why == TableFull) || (e.DoExit? && s.tasks[s.current].task.uid == KERNEL_USER)
  {
    CurrentFree(s);
    hide Table, Family, Serials, WaitJustified, Links, SleepSorted, OneRunning;
    match e
    case DoYield => RunningNoneElse(s); ScheduleKeeps(s);
    case DoBlock(l) => BlockKeeps(s, l, Blocked);
    case DoUnblock(i) => RunningNoneElse(s); UnblockKeeps(s, i); UnblockRuns(s, i);
    case DoSleep(ms) => SleepKeeps(s, ms);
    case DoTick => TickKeeps(s);
    case DoFork => ForkKeeps(s);
    case DoExit(status) => ExitKeeps(s, status);
    case DoWaitpid(pid) => WaitpidMeans(s, pid);
  }

  lemma RunningNoneElse(s: Sys)
    requires OneRunning(s)
    ensures NoneElse(s)
  {
  }

  lemma UnblockRuns(s: Sys, i: nat)
    requires Inv(s) && In(s, i, Blocked) && |s.tasks| == NR_TASKS && Unblock(s, i).Ok?
    ensures OneRunning(Unblock(s, i).value)
  {
    var r := Unblock(s, i).value;
    hide Family, Serials, WaitJustified, Links, SleepSorted, Table;
    forall j | In(r, j, Running) ensures j == r.current {
      assert In(s, j, Running);
    }
  }

  function Run(s: Sys, events: seq<Event>): Result<Sys>
    requires |s.tasks| == NR_TASKS
    decreases |events|
  {
    if events == [] then Ok(s)
    else if !Possible(s, events[0]) then Halt(Undefined)
    else
      var r :- Step(s, events[0]);
      if |r.tasks| != NR_TASKS then Halt(Undefined) else Run(r, events[1..])
  }

  // In every state that any interleaving of forks, exits, waits, sleeps, blocks and
  // clock ticks can reach from boot: one task runs, every waiting parent has a child
  // to wait for, and no child has been reaped twice.
  lemma {:induction false} RunKeeps(s: Sys, events: seq<Event>)
    requires Inv(s)
    ensures |s.tasks| == NR_TASKS
    ensures Run(s, events).Ok? ==> Inv(Run(s, events).value)
    decreases |events|
  {
    CurrentFree(s);
    hide Inv, Step, Possible;
    if events != [] && Possible(s, events[0]) {
      StepKeeps(s, events[0]);
      if Step(s, events[0]).Ok? {
        RunKeeps(Step(s, events[0]).value, events[1..]);
      }
    }
  }

  lemma BootInv(n: nat)
    requires n > 0
    ensures Inv(Boot(n))
    // the idle task with priority 1, init and another user's task with priority 5; init runs
    ensures var s := Boot(n);
      && s.current == 1 && s.jiffies == 0 && |s.lists| == n && (forall i :: Is(s, i) <==> 0 <= i < 3)
      && (forall i :: 0 <= i < 3 ==>
            var t := s.tasks[i].task;
            t.ppid == 0 && t.uid == (if i == 0 then KERNEL_USER else 1000) && t.priority == t.ticks == (if i == 0 then 1 else 5))
  {
    var s := Boot(n);
    assert s.tasks[0].Used? && s.tasks[1].Used? && s.tasks[2].Used? && forall i :: 3 <= i < NR_TASKS ==> s.tasks[i].Free?;
    BootStates(s);
    hide Boot;
    forall i | Is(s, i) && i != 0 ensures ParentOf(s, i) {
    }
  }

  lemma BootStates(s: Sys)
    requires exists n: nat :: n > 0 && s == Boot(n)
    ensures forall i :: In(s, i, Running) <==> i == 1
    ensures forall i, st :: In(s, i, st) ==> st == Running || st == Ready
    ensures |s.tasks| == NR_TASKS && s.current == 1 && s.sleepList == [] && s.reaped == [] && s.next == 3 && s.jiffies == 0
    ensures |s.lists| > 0 && forall k :: 0 <= k < |s.lists| ==> s.lists[k] == []
    ensures forall i :: Is(s, i) ==> i < 3 && s.tasks[i].task.ppid == 0 && s.tasks[i].task.serial == i
    ensures s.tasks[0].Used? && s.tasks[0].task.uid == KERNEL_USER && s.tasks[0].task.state == Ready
  {
  }

  // ---------- a run in which a sleeper is hidden ----------

  lemma {:induction false} RunThen(s: Sys, first: seq<Event>, second: seq<Event>)
    requires |s.tasks| == NR_TASKS && Run(s, first).Ok?
    ensures |Run(s, first).value.tasks| == NR_TASKS
    ensures Run(s, first + second) == Run(Run(s, first).value, second)
    decreases |first|
  {
    if first == [] {
      assert first + second == second;
    } else {
      assert (first + second)[0] == first[0] && (first + second)[1..] == first[1..] + second;
      RunThen(Step(s, first[0]).value, first[1..], second);
    }
  }

  ghost predicate Reaches(s: Sys, r: Sys) {
    |s.tasks| == NR_TASKS && exists events :: Run(s, events) == Ok(r)
  }

  lemma ReachesOn(s: Sys, r: Sys, q: Sys)
    requires Reaches(s, r) && Reaches(r, q)
    ensures Reaches(s, q)
  {
    var first :| Run(s, first) == Ok(r);
    var second :| Run(r, second) == Ok(q);
    RunThen(s, first, second);
    assert Run(s, first + second) == Ok(q);
  }

  lemma StepReaches(s: Sys, e: Event)
    requires |s.tasks| == NR_TASKS && Possible(s, e) && Step(s, e).Ok? && |Step(s, e).value.tasks| == NR_TASKS
    ensures Reaches(s, Step(s, e).value)
  {
    assert Run(s, [e]) == Ok(Step(s, e).value);
  }

  // The first three tasks are there, awake but for those on the sleep list.
  ghost predicate Crew(s: Sys, asleep: seq<nat>) {
    Inv(s) && s.sleepList == asleep && forall i :: 0 <= i < 3 ==> Is(s, i) && (Runnable(s, i) || i in asleep)
  }

  ghost predicate SameTicks(s: Sys, r: Sys, l: seq<nat>) {
    forall i :: i in l && TicksOf(s, i) != 0 ==> TicksOf(r, i) == TicksOf(s, i)
  }

  lemma CalmCrew(s: Sys, r: Sys, asleep: seq<nat>)
    requires Crew(s, asleep) && Calm(s, r) && Inv(r)
    ensures Crew(r, asleep) && SameTicks(s, r, asleep)
  {
    forall i | i in asleep && TicksOf(s, i) != 0 ensures TicksOf(r, i) == TicksOf(s, i) {
      assert In(s, i, Sleeping);
    }
  }

  lemma QuietTick(s: Sys)
    requires |s.tasks| == NR_TASKS && Is(s, s.current) && s.jiffies < TWO32 - 1
    requires s.sleepList == [] || !Due(s, s.sleepList[0])
    ensures var t := Ticked(s);
      && |t.tasks| == NR_TASKS && t.jiffies == s.jiffies + 1
      && Tick(s) == if TicksOf(t, t.current) == 0 then Schedule(t) else Ok(t)
  {
    hide Schedule;
  }

  lemma TickedCrew(s: Sys, asleep: seq<nat>)
    requires Crew(s, asleep) && s.jiffies < TWO32 - 1 && Is(s, s.current)
    ensures Crew(Ticked(s), asleep) && NoneElse(Ticked(s)) && SameTicks(s, Ticked(s), asleep)
  {
    CurrentFree(s);
    TickedKeeps(s);
    TickedCalm(s, Ticked(s));
    hide Ticked, Calm, Base, OneRunning, NoneElse, Linked;
    CalmCrew(s, Ticked(s), asleep);
  }

  // A clock tick that wakes nobody.
  lemma TickCrew(s: Sys, asleep: seq<nat>) returns (r: Sys)
    requires Crew(s, asleep) && (asleep == [] || !Due(s, asleep[0])) && s.jiffies < TWO32 - 1
    ensures Reaches(s, r) && Crew(r, asleep) && SameTicks(s, r, asleep) && r.jiffies == s.jiffies + 1
  {
    CurrentFree(s);
    QuietTick(s);
    var t := Ticked(s);
    hide Inv, Tick, Ticked, Schedule, NoneElse, Linked;
    TickedCrew(s, asleep);
    r := t;
    if TicksOf(t, t.current) == 0 {
      Rescheduling(t, asleep);
      r := Schedule(t).value;
    }
    CrewSize(r, asleep);
    StepReaches(s, DoTick);
  }

  lemma CrewSize(s: Sys, asleep: seq<nat>)
    requires Crew(s, asleep)
    ensures |s.tasks| == NR_TASKS
  {
  }

  lemma Rescheduling(s: Sys, asleep: seq<nat>)
    requires Crew(s, asleep) && NoneElse(s)
    ensures |s.tasks| == NR_TASKS && Schedule(s).Ok?
    ensures Crew(Schedule(s).value, asleep) && SameTicks(s, Schedule(s).value, asleep) && Schedule(s).value.jiffies == s.jiffies
  {
    ScheduleKeeps(s);
    ScheduleCalm(s);
    ScheduleTasks(s);
    hide Inv, Base, Schedule, Calm, NoneElse;
    CalmCrew(s, Schedule(s).value, asleep);
  }

  lemma {:induction false} TicksCrew(s: Sys, asleep: seq<nat>, n: nat) returns (r: Sys)
    requires Crew(s, asleep) && s.jiffies + n < TWO32
    requires asleep == [] || (TicksOf(s, asleep[0]) != 0 && U32(TicksOf(s, asleep[0])) >= s.jiffies + n)
    ensures Reaches(s, r) && Crew(r, asleep) && SameTicks(s, r, asleep) && r.jiffies == s.jiffies + n
    decreases n
  {
    if n == 0 {
      r := s;
      CurrentFree(s);
      assert Run(s, []) == Ok(s);
    } else {
      var t := TickCrew(s, asleep);
      hide Crew, Reaches;
      r := TicksCrew(t, asleep, n - 1);
      ReachesOn(s, t, r);
    }
  }

  // A task other than the idle one gets the processor.
  lemma SomeoneRuns(s: Sys, asleep: seq<nat>) returns (r: Sys)
    requires Crew(s, asleep) && (1 !in asleep || 2 !in asleep)
    ensures Reaches(s, r) && Crew(r, asleep) && SameTicks(s, r, asleep) && r.jiffies == s.jiffies && r.current != 0
  {
    CurrentFree(s);
    if s.current != 0 {
      r := s;
      assert Run(s, []) == Ok(s);
    } else {
      var i := if 1 in asleep then 2 else 1;
      assert In(s, i, Ready);
      r := Schedule(s).value;
      hide Inv, Linked;
      RunningNoneElse(s);
      Rescheduling(s, asleep);
      assert r.current != 0;
      StepReaches(s, DoYield);
    }
  }

  lemma SleepCrew(s: Sys, asleep: seq<nat>, ms: uint32) returns (r: Sys)
    requires Crew(s, asleep) && s.current != 0 && WakeTick(s, ms) < TWO32
    requires asleep == [] || (|asleep| == 1 && TicksOf(s, asleep[0]) <= S32(WakeTick(s, ms)))
    ensures s.current !in asleep
    ensures Reaches(s, r) && Crew(r, asleep + [s.current]) && SameTicks(s, r, asleep) && r.jiffies == s.jiffies
    ensures TicksOf(r, s.current) == S32(WakeTick(s, ms))
  {
    CurrentFree(s);
    assert s.current !in asleep;
    SleepKeeps(s, ms);
    WakeSoon(s, ms);
    r := Sleep(s, ms).value;
    CrewMembers(s, asleep);
    hide Inv, WakeTick, Linked, Sleep;
    SleepTasks(s, ms);
    StepReaches(s, DoSleep(ms)) by {
      SizeOf(r);
    }
    hide Reaches;
    assert Crew(r, asleep + [s.current]) by {
      forall i | 0 <= i < 3 ensures Is(r, i) && (Runnable(r, i) || i in asleep + [s.current]) {
        assert Is(s, i) && (Runnable(s, i) || i in asleep);
      }
    }
  }

  lemma SizeOf(s: Sys)
    requires Inv(s)
    ensures |s.tasks| == NR_TASKS
  {
  }

  // What sleep does to the table when nobody on the list is due later.
  lemma SleepTasks(s: Sys, ms: uint32)
    requires |s.tasks| == NR_TASKS && Is(s, s.current) && s.current !in s.sleepList && Sleep(s, ms).Ok?
    requires S32(WakeTick(s, ms)) != 0
    requires s.sleepList == [] || (|s.sleepList| == 1 && TicksOf(s, s.sleepList[0]) <= S32(WakeTick(s, ms)))
    ensures var r := Sleep(s, ms).value;
      && r.sleepList == s.sleepList + [s.current] && r.jiffies == s.jiffies
      && TicksOf(r, s.current) == S32(WakeTick(s, ms)) && Is(r, s.current)
      && (forall i :: Is(s, i) ==> Is(r, i))
      && (forall i :: i != s.current && Runnable(s, i) ==> Runnable(r, i))
      && (forall i: nat :: i != s.current && Is(s, i) ==> TicksOf(r, i) == TicksOf(s, i))
  {
    var wake := WakeTick(s, ms);
    var a := Asleep(s, wake);
    assert Sleep(s, ms) == Schedule(a);
    hide WakeTick, Linked, Sleep;
    AsleepLast(s, wake);
    hide Asleep;
    assert forall i :: Is(a, i) <==> Is(s, i);
    assert forall i :: i != s.current && Is(s, i) ==> a.tasks[i] == s.tasks[i];
    ScheduleTasks(a);
    hide Schedule;
  }

  // Whoever sleeps longest goes behind the only other sleeper.
  lemma AsleepLast(s: Sys, wake: nat)
    requires Is(s, s.current) && s.current !in s.sleepList
    requires s.sleepList == [] || (|s.sleepList| == 1 && TicksOf(s, s.sleepList[0]) <= S32(wake))
    ensures var a := Asleep(s, wake);
      && a.sleepList == s.sleepList + [s.current] && a == s.(tasks := a.tasks, sleepList := a.sleepList)
      && a.tasks == s.tasks[s.current := Used(s.tasks[s.current].task.(ticks := S32(wake), state := Sleeping))]
  {
    var s1 := Put(s, s.current, s.tasks[s.current].task.(ticks := S32(wake), state := Sleeping));
    assert InsertSorted(s1, [], s.current) == [s.current];
    if s.sleepList != [] {
      assert s.sleepList[1..] == [] && s.sleepList == [s.sleepList[0]];
      assert s.sleepList[0] in s.sleepList && TicksOf(s1, s.sleepList[0]) == TicksOf(s, s.sleepList[0]);
    }
  }

  lemma CrewMembers(s: Sys, asleep: seq<nat>)
    requires Crew(s, asleep)
    ensures s.sleepList == asleep && forall i :: i in asleep ==> In(s, i, Sleeping)
  {
  }

  lemma TwoSleep(s: Sys) returns (r: Sys, a: nat, b: nat)
    requires Crew(s, []) && s.jiffies == TWO31 - 10
    ensures Reaches(s, r) && Crew(r, [a, b]) && a != b && r.jiffies == s.jiffies
    ensures TicksOf(r, a) == 5 - TWO31 && TicksOf(r, b) == TWO31 - 5
  {
    hide Crew, Reaches;
    var s2 := SomeoneRuns(s, []);
    a := s2.current;
    var s3 := SleepCrew(s2, [], 150);
    assert [] + [a] == [a];
    var s4 := SomeoneRuns(s3, [a]);
    b := s4.current;
    r := SleepCrew(s4, [a], 50);
    assert [a] + [b] == [a, b];
    ReachesOn(s, s2, s3);
    ReachesOn(s, s3, s4);
    ReachesOn(s, s4, r);
  }

  lemma HiddenRun(s: Sys) returns (r: Sys, a: nat, b: nat)
    requires Crew(s, []) && s.jiffies == 0
    ensures Reaches(s, r) && Hides(r, a, b) && r.jiffies == TWO31 - 5
    ensures TicksOf(r, a) == 5 - TWO31 && TicksOf(r, b) == TWO31 - 5
  {
    hide Crew, Reaches, TicksOf;
    var s1 := TicksCrew(s, [], TWO31 - 10);
    var s2;
    s2, a, b := TwoSleep(s1);
    assert [a, b][0] == a && a in [a, b] && b in [a, b];
    r := TicksCrew(s2, [a, b], 5);
    ReachesOn(s, s1, s2);
    ReachesOn(s, s2, r);
    CrewMembers(r, [a, b]);
  }

  lemma BootCrew(lists: nat)
    requires lists > 0
    ensures Crew(Boot(lists), []) && Boot(lists).jiffies == 0
  {
    BootInv(lists);
    BootStates(Boot(lists));
    hide Inv, Boot;
  }

  // The failure happens: from boot on a run leads to the tick 2^31 - 5 with task b,
  // due then, behind task a, who sleeps until 2^31 + 5.
  lemma HiddenSleeperIsReached(lists: nat)
    requires lists > 0
    ensures exists r: Sys, a: nat, b: nat ::
              && Reaches(Boot(lists), r) && Hides(r, a, b) && r.jiffies == TWO31 - 5
              && U32(TicksOf(r, a)) == TWO31 + 5 && TicksOf(r, b) == TWO31 - 5
  {
    BootCrew(lists);
    hide Boot, Crew, Reaches, Hides, TicksOf;
    var r, a, b := HiddenRun(Boot(lists));
  }
}
