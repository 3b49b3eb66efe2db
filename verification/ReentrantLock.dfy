/**
 The mutex and the re-entrant lock of src/kernel/mutex.cpp, with any number of tasks
 and any interleaving.  A step is what a task does with interrupts off, or one test or
 one assignment that it makes with interrupts on; between two steps any other task may
 run.
 */
module ReentrantLock {
  import opened Outcome
  import opened Lists
  import opened Words

  // Where a task is.  Outside the functions of the lock.  In lockAcquire: before repeat++;
  // at the call of mutexLock; asleep in it; woken in it; after it; after `holder` is set;
  // after `repeat` was found to be 0.  In lockRelease: after `holder` was found to be the
  // task; before repeat--; after repeat > 1 was found false; after `repeat` was found to be
  // 1; after `holder` is cleared; after `repeat` is cleared, before mutexUnlock.
  datatype Pc = Outside
    | Raising | Entering | Queued | Woken | Took | Naming | Zeroed
    | Checked | Lowering | Single | Last | Clearing | Cleared

  // `depth` counts the lockAcquire calls of a task that have returned and whose
  // lockRelease has not begun.  `since` is the number of the call of taskBlock that the
  // task last made for this lock.  The source has no such variables.
  datatype Task = Task(pc: Pc, depth: nat, since: nat)

  // `waiters` are in list order: the latest in front.  `calls` numbers the calls of
  // taskBlock.
  datatype Lock = Lock(value: bool, waiters: seq<nat>, holder: int, repeat: nat, tasks: seq<Task>, calls: nat)

  predicate At(l: Lock, t: nat, pc: Pc) {
    t < |l.tasks| && l.tasks[t].pc == pc
  }

  function Go(l: Lock, t: nat, pc: Pc): Lock
    requires t < |l.tasks|
  {
    l.(tasks := l.tasks[t := l.tasks[t].(pc := pc)])
  }

  function Deep(l: Lock, t: nat, pc: Pc, depth: nat): Lock
    requires t < |l.tasks|
  {
    l.(tasks := l.tasks[t := l.tasks[t].(pc := pc, depth := depth)])
  }

  // ---------- the steps ----------

  // lockAcquire: is the caller the holder?
  function Acquire(l: Lock, t: nat): Lock
    requires At(l, t, Outside)
  {
    Go(l, t, if l.holder != t then Entering else Raising)
  }

  // repeat++
  function Raise(l: Lock, t: nat): Lock
    requires At(l, t, Raising)
  {
    Deep(l.(repeat := l.repeat + 1), t, Outside, l.tasks[t].depth + 1)
  }

  // mutexLock, from its start or from where taskBlock returns, to its end or the next
  // taskBlock.
  function MutexLock(l: Lock, t: nat): Result<Lock>
    requires At(l, t, Entering) || At(l, t, Woken)
  {
    if !l.value then Ok(Go(l.(value := true), t, Took))
    else if t in l.waiters then Halt(AssertFailed)
    else Ok(l.(waiters := [t] + l.waiters, tasks := l.tasks[t := l.tasks[t].(pc := Queued, since := l.calls)], calls := l.calls + 1))
  }

  function SetHolder(l: Lock, t: nat): Lock
    requires At(l, t, Took)
  {
    Go(l.(holder := t), t, Naming)
  }

  function CheckZero(l: Lock, t: nat): Result<Lock>
    requires At(l, t, Naming)
  {
    if l.repeat != 0 then Halt(AssertFailed) else Ok(Go(l, t, Zeroed))
  }

  function SetRepeat(l: Lock, t: nat): Lock
    requires At(l, t, Zeroed)
  {
    Deep(l.(repeat := 1), t, Outside, 1)
  }

  // lockRelease: the caller must be the holder.
  function Release(l: Lock, t: nat): Result<Lock>
    requires At(l, t, Outside)
  {
    if l.holder != t then Halt(AssertFailed)
    else Ok(Deep(l, t, Checked, if l.tasks[t].depth > 0 then l.tasks[t].depth - 1 else 0))
  }

  // Is it nested?
  function TestNested(l: Lock, t: nat): Lock
    requires At(l, t, Checked)
  {
    Go(l, t, if l.repeat > 1 then Lowering else Single)
  }

  // repeat--
  function Lower(l: Lock, t: nat): Lock
    requires At(l, t, Lowering)
  {
    Go(l.(repeat := if l.repeat > 0 then l.repeat - 1 else TWO32 - 1), t, Outside)
  }

  function CheckOne(l: Lock, t: nat): Result<Lock>
    requires At(l, t, Single)
  {
    if l.repeat != 1 then Halt(AssertFailed) else Ok(Go(l, t, Last))
  }

  function ClearHolder(l: Lock, t: nat): Lock
    requires At(l, t, Last)
  {
    Go(l.(holder := -1), t, Clearing)
  }

  function ClearRepeat(l: Lock, t: nat): Lock
    requires At(l, t, Clearing)
  {
    Go(l.(repeat := 0), t, Cleared)
  }

  // mutexUnlock: the task that has waited longest is woken.
  function MutexUnlock(l: Lock, t: nat): Result<Lock>
    requires At(l, t, Cleared)
  {
    if !l.value then Halt(AssertFailed)
    else
      var l1 := Go(l.(value := false), t, Outside);
      if l.waiters == [] then Ok(l1)
      else
        var w := l.waiters[|l.waiters| - 1];
        if w >= |l.tasks| then Halt(Undefined)
        else Ok(Go(l1.(waiters := l.waiters[..|l.waiters| - 1]), w, Woken))
  }

  // ---------- runs ----------

  datatype Event = Call(t: nat) | Return(t: nat) | Continue(t: nat)

  // A task may call lockAcquire, call lockRelease as often as it has acquired, and go on
  // where it is, unless it sleeps.
  predicate Possible(l: Lock, e: Event) {
    e.t < |l.tasks| &&
    match e
    case Call(t) => l.tasks[t].pc == Outside
    case Return(t) => l.tasks[t].pc == Outside && l.tasks[t].depth > 0
    case Continue(t) => l.tasks[t].pc !in {Outside, Queued}
  }

  function Step(l: Lock, e: Event): Result<Lock>
    requires Possible(l, e)
  {
    match e
    case Call(t) => Ok(Acquire(l, t))
    case Return(t) => Release(l, t)
    case Continue(t) =>
      match l.tasks[t].pc
      case Entering => MutexLock(l, t)
      case Woken => MutexLock(l, t)
      case Raising => Ok(Raise(l, t))
      case Took => Ok(SetHolder(l, t))
      case Naming => CheckZero(l, t)
      case Zeroed => Ok(SetRepeat(l, t))
      case Checked => Ok(TestNested(l, t))
      case Lowering => Ok(Lower(l, t))
      case Single => CheckOne(l, t)
      case Last => Ok(ClearHolder(l, t))
      case Clearing => Ok(ClearRepeat(l, t))
      case Cleared => MutexUnlock(l, t)
  }

  function Init(n: nat): Lock {
    Lock(false, [], -1, 0, seq(n, _ => Task(Outside, 0, 0)), 0)
  }

  // ---------- the invariant ----------

  // Task t is between the end of lockAcquire and the matching lockRelease.
  predicate Critical(l: Lock, t: nat) {
    At(l, t, Outside) && l.tasks[t].depth > 0
  }

  // Task t has the mutex.
  predicate Inside(l: Lock, t: nat) {
    t < |l.tasks| && if l.tasks[t].pc == Outside then l.tasks[t].depth > 0 else l.tasks[t].pc !in {Entering, Queued, Woken}
  }

  // What the lock's fields say when t has the mutex.
  predicate FieldsOf(l: Lock, t: nat)
    requires t < |l.tasks|
  {
    && l.value
    && l.holder == (if l.tasks[t].pc in {Took, Clearing, Cleared} then -1 else t)
    && l.repeat == match l.tasks[t].pc
                   case Outside => l.tasks[t].depth
                   case Raising => l.tasks[t].depth
                   case Checked => l.tasks[t].depth + 1
                   case Lowering => l.tasks[t].depth + 1
                   case Single => 1
                   case Last => 1
                   case Clearing => 1
                   case _ => 0
  }

  // Only in a nested call does a task count what it holds.
  predicate Depth(task: Task) {
    match task.pc
    case Outside => true
    case Checked => true
    case Raising => task.depth > 0
    case Lowering => task.depth > 0
    case _ => task.depth == 0
  }

  // Task o and no other has the mutex, and the fields are as it has left them; nobody
  // has it if o is -1.
  ghost predicate Owned(l: Lock, o: int) {
    && -1 <= o < |l.tasks| && (forall t: nat :: Inside(l, t) <==> t == o)
    && (if o == -1 then !l.value && l.holder == -1 && l.repeat == 0 else FieldsOf(l, o))
    && (forall t :: 0 <= t < |l.tasks| ==> Depth(l.tasks[t]))
  }

  // The sleepers are in the list, each once.
  ghost predicate Queue(l: Lock) {
    NoDup(l.waiters) && (forall t: nat :: t in l.waiters <==> At(l, t, Queued)) && Aged(l)
  }

  // Along the list, the later calls of taskBlock come first.
  ghost predicate Aged(l: Lock) {
    && (forall t: nat :: At(l, t, Queued) ==> l.tasks[t].since < l.calls)
    && forall i, j :: 0 <= i < j < |l.waiters| && At(l, l.waiters[i], Queued) && At(l, l.waiters[j], Queued) ==>
         l.tasks[l.waiters[j]].since < l.tasks[l.waiters[i]].since
  }

  // No lost wake-up.
  ghost predicate Awake(l: Lock) {
    !l.value && l.waiters != [] ==> exists t: nat :: At(l, t, Woken)
  }

  ghost predicate Inv(l: Lock) {
    (exists o :: Owned(l, o)) && Queue(l) && Awake(l)
  }

  lemma InitInv(n: nat)
    ensures Inv(Init(n))
  {
    assert Owned(Init(n), -1);
  }

  // ---------- every step keeps it ----------

  // Who `holder` names, as the task itself sees it.
  lemma HolderIs(l: Lock, o: int, t: nat)
    requires Owned(l, o) && At(l, t, Outside)
    ensures l.holder == t <==> Critical(l, t)
    ensures Critical(l, t) ==> t == o && l.repeat == l.tasks[t].depth && l.value
  {
    assert Inside(l, t) <==> t == o;
  }

  // Only task t has changed, and it has not gone to sleep or woken up.
  ghost predicate OnlyTask(l: Lock, n: Lock, t: nat) {
    && |n.tasks| == |l.tasks| && n.waiters == l.waiters && n.calls == l.calls && t < |l.tasks|
    && l.tasks[t].pc !in {Queued, Woken} && n.tasks[t].pc !in {Queued, Woken}
    && (forall u :: 0 <= u < |l.tasks| && u != t ==> n.tasks[u] == l.tasks[u])
  }

  lemma SleepersSame(l: Lock, n: Lock, t: nat)
    requires Queue(l) && Awake(l) && OnlyTask(l, n, t) && (n.value || !l.value)
    ensures Queue(n) && Awake(n)
  {
    forall u: nat ensures At(n, u, Queued) <==> At(l, u, Queued) {
    }
    forall u: nat ensures At(l, u, Woken) ==> At(n, u, Woken) {
    }
  }

  lemma OwnerSame(l: Lock, n: Lock, t: nat, o: int, p: int)
    requires Owned(l, o) && |n.tasks| == |l.tasks| && t < |l.tasks| && -1 <= p < |l.tasks|
    requires forall u :: 0 <= u < |l.tasks| && u != t ==> n.tasks[u] == l.tasks[u]
    requires (o == t || o == -1 || p == o) && (p == t || p == -1 || p == o) && (Inside(n, t) <==> p == t)
    requires if p == -1 then !n.value && n.holder == -1 && n.repeat == 0 else FieldsOf(n, p)
    requires Depth(n.tasks[t])
    ensures Owned(n, p)
  {
    forall u: nat ensures Inside(n, u) <==> u == p {
      assert u != t ==> (Inside(n, u) <==> Inside(l, u));
    }
  }

  lemma AcquireKeeps(l: Lock, o: int, t: nat)
    requires Owned(l, o) && Queue(l) && Awake(l) && At(l, t, Outside)
    ensures Owned(Acquire(l, t), o) && Queue(Acquire(l, t)) && Awake(Acquire(l, t))
  {
    HolderIs(l, o, t);
    SleepersSame(l, Acquire(l, t), t);
    OwnerSame(l, Acquire(l, t), t, o, o);
  }

  ghost predicate OthersSame(l: Lock, n: Lock, t: nat, w: nat) {
    |n.tasks| == |l.tasks| && forall u :: 0 <= u < |l.tasks| && u != t && u != w ==> n.tasks[u] == l.tasks[u]
  }

  lemma MutexLockKeeps(l: Lock, o: int, t: nat)
    requires Owned(l, o) && Queue(l) && Awake(l) && (At(l, t, Entering) || At(l, t, Woken))
    ensures MutexLock(l, t).Ok?
    ensures var n := MutexLock(l, t).value; Owned(n, if l.value then o else t) && Queue(n) && Awake(n)
    ensures var n := MutexLock(l, t).value;
      && n.value && n.holder == l.holder && n.repeat == l.repeat
      && (if l.value then At(n, t, Queued) && n.tasks[t].since == l.calls && n.calls == l.calls + 1 && n.waiters == [t] + l.waiters
          else At(n, t, Took) && n.calls == l.calls && n.waiters == l.waiters)
      && OthersSame(l, n, t, t)
  {
    var n := MutexLock(l, t).value;
    assert !Inside(l, t) && (Inside(l, t) <==> t == o);
    OwnerSame(l, n, t, o, if l.value then o else t);
    hide Owned;
    assert t !in l.waiters;
    forall u: nat ensures At(n, u, Queued) <==> At(l, u, Queued) || (l.value && u == t) {
    }
  }

  // What task t does inside the two functions of the lock when it has the mutex, one
  // step at a time: nobody else changes what it reads.
  predicate Within(l: Lock, t: nat) {
    t < |l.tasks| && l.tasks[t].pc in {Raising, Took, Naming, Zeroed, Checked, Lowering, Single, Last, Clearing}
  }

  lemma WithinKeeps(l: Lock, o: int, t: nat)
    requires Owned(l, o) && Queue(l) && Awake(l) && Within(l, t)
    ensures Step(l, Continue(t)).Ok?
    ensures var n := Step(l, Continue(t)).value; Owned(n, o) && Queue(n) && Awake(n)
  {
    assert Inside(l, t) <==> t == o;
    var n := Step(l, Continue(t)).value;
    SleepersSame(l, n, t);
    OwnerSame(l, n, t, o, o);
  }

  // lockRelease by a task that has not acquired the lock stops the kernel; by one that
  // has, it does not.
  lemma ReleaseKeeps(l: Lock, o: int, t: nat)
    requires Owned(l, o) && Queue(l) && Awake(l) && At(l, t, Outside)
    ensures Release(l, t).Ok? <==> Critical(l, t)
    ensures Release(l, t).Ok? ==> var n := Release(l, t).value; Owned(n, o) && Queue(n) && Awake(n)
  {
    HolderIs(l, o, t);
    if Critical(l, t) {
      SleepersSame(l, Release(l, t).value, t);
      OwnerSame(l, Release(l, t).value, t, o, o);
    }
  }

  // Of all sleepers the one that called taskBlock first has been woken; the others keep
  // their order.
  ghost predicate WakesEldest(l: Lock, n: Lock, t: nat, w: nat) {
    && At(l, w, Queued) && At(n, w, Woken) && n.waiters == Drop(l.waiters, w) && OthersSame(l, n, t, w)
    && forall u: nat :: At(l, u, Queued) && u != w ==> l.tasks[w].since < l.tasks[u].since
  }

  // n is l after the unlock, with the last waiter w woken.
  ghost predicate Unlocked(l: Lock, n: Lock, t: nat, w: nat) {
    && |n.tasks| == |l.tasks| && At(n, t, Outside) && At(n, w, Woken) && OthersSame(l, n, t, w) && n.calls == l.calls
    && l.waiters == n.waiters + [w]
  }

  lemma LastIsEldest(l: Lock, n: Lock, t: nat, w: nat)
    requires Queue(l) && At(l, t, Cleared) && Unlocked(l, n, t, w)
    ensures WakesEldest(l, n, t, w)
  {
    var k := |l.waiters| - 1;
    assert l.waiters[k] == w && At(l, w, Queued);
    DropAt(l.waiters, k);
    assert l.waiters[..k] + l.waiters[k + 1..] == n.waiters;
    forall u: nat | At(l, u, Queued) && u != w ensures l.tasks[w].since < l.tasks[u].since {
      assert u in l.waiters;
    }
  }

  lemma UnlockedQueue(l: Lock, n: Lock, t: nat, w: nat)
    requires Queue(l) && At(l, t, Cleared) && Unlocked(l, n, t, w)
    ensures Queue(n)
  {
    assert l.waiters[|l.waiters| - 1] == w && At(l, w, Queued);
    assert forall j :: 0 <= j < |n.waiters| ==> n.waiters[j] == l.waiters[j];
    forall u: nat ensures u in n.waiters <==> At(n, u, Queued) {
      assert u in l.waiters <==> At(l, u, Queued);
    }
    forall u: nat | At(n, u, Queued) ensures At(l, u, Queued) && n.tasks[u] == l.tasks[u] {
    }
  }

  lemma MutexUnlockKeeps(l: Lock, o: int, t: nat)
    requires Owned(l, o) && Queue(l) && Awake(l) && At(l, t, Cleared)
    ensures MutexUnlock(l, t).Ok?
    ensures var n := MutexUnlock(l, t).value; Owned(n, -1) && Queue(n) && Awake(n) && !n.value && At(n, t, Outside) && n.calls == l.calls
    ensures var n := MutexUnlock(l, t).value;
      if l.waiters == [] then OthersSame(l, n, t, t) && n.waiters == [] else exists w: nat :: WakesEldest(l, n, t, w)
  {
    assert Inside(l, t) <==> t == o;
    var l1 := Go(l.(value := false), t, Outside);
    OwnerSame(l, l1, t, o, -1);
    var k := |l.waiters| - 1;
    if k >= 0 {
      var w := l.waiters[k];
      assert At(l, w, Queued) && At(l1, w, Queued);
      var n := MutexUnlock(l, t).value;
      OwnerSame(l1, n, w, -1, -1);
      assert Unlocked(l, n, t, w);
      hide Owned, Queue, WakesEldest, OthersSame;
      LastIsEldest(l, n, t, w);
      UnlockedQueue(l, n, t, w);
    } else {
      hide Owned;
      forall u: nat ensures u in l1.waiters <==> At(l1, u, Queued) {
        assert u in l.waiters <==> At(l, u, Queued);
      }
    }
  }

  // No assert of mutex.cpp can fail, whatever the other tasks do in between.
  lemma StepKeeps(l: Lock, e: Event)
    requires Inv(l) && Possible(l, e)
    ensures Step(l, e).Ok? && Inv(Step(l, e).value)
  {
    var o :| Owned(l, o);
    hide Owned, Queue, Awake, Acquire, Raise, MutexLock, SetHolder, CheckZero, SetRepeat, Release, TestNested, Lower, CheckOne,
         ClearHolder, ClearRepeat, MutexUnlock;
    match e
    case Call(t) => AcquireKeeps(l, o, t);
    case Return(t) => ReleaseKeeps(l, o, t);
    case Continue(t) =>
      match l.tasks[t].pc
      case Entering => MutexLockKeeps(l, o, t);
      case Woken => MutexLockKeeps(l, o, t);
      case Cleared => MutexUnlockKeeps(l, o, t);
      case _ => WithinKeeps(l, o, t);
  }

  function Run(l: Lock, es: seq<Event>): Result<Lock>
    decreases |es|
  {
    if es == [] then Ok(l)
    else if !Possible(l, es[0]) then Halt(Undefined)
    else var n :- Step(l, es[0]); Run(n, es[1..])
  }

  lemma {:induction false} RunKeeps(l: Lock, es: seq<Event>)
    requires Inv(l) && Run(l, es).Ok?
    ensures Inv(Run(l, es).value)
    decreases |es|
  {
    if es != [] {
      StepKeeps(l, es[0]);
      RunKeeps(Step(l, es[0]).value, es[1..]);
    }
  }

  // In every state of every interleaving: at most one task is in its critical section,
  // `holder` and `repeat` are that task and its nesting depth, and if the mutex is free
  // while tasks sleep on it then one that was woken is about to try again.
  lemma MutualExclusion(n: nat, es: seq<Event>)
    requires Run(Init(n), es).Ok?
    ensures var l := Run(Init(n), es).value;
      && (forall t: nat, u: nat :: Critical(l, t) && Critical(l, u) ==> t == u)
      && (forall t: nat :: Critical(l, t) ==> l.value && l.holder == t && l.repeat == l.tasks[t].depth)
      && (!l.value && l.waiters != [] ==> exists t: nat :: At(l, t, Woken) && Possible(l, Continue(t)))
      && (forall t: nat :: At(l, t, Queued) ==> t in l.waiters)
  {
    InitInv(n);
    RunKeeps(Init(n), es);
    var l := Run(Init(n), es).value;
    hide Run;
    var o :| Owned(l, o);
    forall t: nat | Critical(l, t) ensures t == o && l.value && l.holder == t && l.repeat == l.tasks[t].depth {
      HolderIs(l, o, t);
    }
    if !l.value && l.waiters != [] {
      var t: nat :| At(l, t, Woken);
      assert Possible(l, Continue(t));
    }
  }
}
