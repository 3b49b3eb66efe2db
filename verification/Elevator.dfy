/**
 The request queue of a block device in src/kernel/device.cpp: requests are inserted
 in order, one of them is being served, and whoever finishes hands over to the next.
 Steps are what a task does between two task switches.
 */
module Elevator {
  import opened Outcome
  import opened Words

  datatype Direct = Up | Down

  // `task` is the recorded owner, -1 for null.  `serial` and `owner` are not in the
  // source: the owner is the task whose stack the request is in, and the serial says
  // which request is meant.
  datatype Request = Request(serial: nat, idx: uint32, owner: nat, task: int)

  // `blocked` are the tasks that sleep in deviceRequest, `served` the finished requests
  // in order, `next` the number of requests so far.
  datatype Queue = Queue(list: seq<Request>, direct: Direct, blocked: set<nat>, served: seq<nat>, next: nat)

  // The sort key is the sector read as a signed int.
  function Key(r: Request): int {
    S32(r.idx)
  }

  // ---------- the operations ----------

  // listInsertSort: the position of the first larger key from i on.
  function Anchor(list: seq<Request>, key: int, i: nat): (r: nat)
    requires i <= |list|
    ensures i <= r <= |list| && (forall j :: i <= j < r ==> Key(list[j]) <= key) && (r < |list| ==> Key(list[r]) > key)
    decreases |list| - i
  {
    if i == |list| || Key(list[i]) > key then i else Anchor(list, key, i + 1)
  }

  function Insert(list: seq<Request>, r: Request): seq<Request> {
    var a := Anchor(list, Key(r), 0);
    list[..a] + [r] + list[a..]
  }

  function Remove(list: seq<Request>, i: nat): (r: seq<Request>)
    requires i < |list|
    ensures |r| == |list| - 1
    ensures forall j :: 0 <= j < |r| ==> r[j] == if j < i then list[j] else list[j + 1]
  {
    list[..i] + list[i + 1..]
  }

  // deviceRequest up to the point where it sleeps or starts to transfer.
  function Arrive(q: Queue, owner: nat, idx: uint32): Queue {
    if q.list == [] then q.(list := [Request(q.next, idx, owner, -1)], next := q.next + 1)
    else q.(list := Insert(q.list, Request(q.next, idx, owner, owner)), blocked := q.blocked + {owner}, next := q.next + 1)
  }

  // requestNextreq for the request at position i of n: the new direction and the
  // position of the next request, -1 for none.
  function NextReq(n: nat, i: nat, direct: Direct): (r: (Direct, int))
    requires i < n
    ensures r.1 == -1 || (0 <= r.1 < n && (r.1 == i + 1 || r.1 == i - 1))
  {
    var d := if direct == Up && i == n - 1 then Down else if direct == Down && i == 0 then Up else direct;
    var next := if d == Up then i + 1 else i - 1;
    (d, if 0 <= next < n then next else -1)
  }

  // deviceRequest after the transfer of the request at position i.
  function Finish(q: Queue, i: nat): Result<Queue>
    requires i < |q.list|
  {
    var (d, j) := NextReq(|q.list|, i, q.direct);
    var q1 := q.(list := Remove(q.list, i), direct := d, served := q.served + [q.list[i].serial]);
    if j == -1 then Ok(q1)
    else
      var t := q.list[j].task;
      if t < 0 then Halt(Undefined)
      else if t !in q.blocked then Halt(AssertFailed)
      else Ok(q1.(blocked := q.blocked - {t}))
  }

  // ---------- runs ----------

  datatype Event = Ask(owner: nat, idx: uint32) | Done(owner: nat)

  predicate Pending(q: Queue, owner: nat) {
    exists i :: 0 <= i < |q.list| && q.list[i].owner == owner
  }

  function PositionOf(list: seq<Request>, owner: nat, i: nat): (r: int)
    requires i <= |list|
    ensures r == -1 ==> forall j :: i <= j < |list| ==> list[j].owner != owner
    ensures r != -1 ==> i <= r < |list| && list[r].owner == owner
    decreases |list| - i
  {
    if i == |list| then -1 else if list[i].owner == owner then i else PositionOf(list, owner, i + 1)
  }

  // A task that is not blocked may make a request, or finish the one it is in.
  function Step(q: Queue, e: Event): Result<Queue> {
    var i := PositionOf(q.list, e.owner, 0);
    if e.owner in q.blocked then Halt(Undefined)
    else if e.Ask? then if i != -1 then Halt(Undefined) else Ok(Arrive(q, e.owner, e.idx))
    else if i == -1 then Halt(Undefined) else Finish(q, i)
  }

  predicate Possible(q: Queue, e: Event) {
    e.owner !in q.blocked && (Pending(q, e.owner) <==> e.Done?)
  }

  // ---------- the invariant ----------

  predicate Sorted(list: seq<Request>) {
    forall i, j :: 0 <= i < j < |list| ==> Key(list[i]) <= Key(list[j])
  }

  predicate OnePerTask(list: seq<Request>) {
    forall i, j :: 0 <= i < j < |list| ==> list[i].owner != list[j].owner
  }

  // The request at position a is being served; all others sleep, and are recorded.
  predicate Serving(q: Queue, a: int) {
    && 0 <= a < |q.list| && q.list[a].owner !in q.blocked
    && forall i :: 0 <= i < |q.list| && i != a ==> q.list[i].owner in q.blocked && q.list[i].task == q.list[i].owner
  }

  ghost predicate Sleepers(q: Queue) {
    forall t :: t in q.blocked ==> Pending(q, t)
  }

  function Serials(list: seq<Request>): (s: seq<nat>)
    ensures |s| == |list| && forall i :: 0 <= i < |s| ==> s[i] == list[i].serial
  {
    seq(|list|, i requires 0 <= i < |list| => list[i].serial)
  }

  // Every request so far was served once or is pending once.
  ghost predicate Accounted(q: Queue) {
    forall s: nat :: multiset(q.served)[s] + multiset(Serials(q.list))[s] == if s < q.next then 1 else 0
  }

  ghost predicate Inv(q: Queue) {
    && Sorted(q.list) && OnePerTask(q.list) && Sleepers(q) && Accounted(q)
    && (q.list != [] ==> exists a :: Serving(q, a))
  }

  const Idle := Queue([], Up, {}, [], 0)

  lemma IdleInv()
    ensures Inv(Idle)
  {
  }

  // ---------- arrivals ----------

  lemma InsertSorted(list: seq<Request>, r: Request)
    requires Sorted(list)
    ensures Sorted(Insert(list, r))
  {
    var a := Anchor(list, Key(r), 0);
    var l := Insert(list, r);
    assert forall j :: 0 <= j < |l| ==> l[j] == if j < a then list[j] else if j == a then r else list[j - 1];
  }

  // The request is behind all with the same key, and the others keep their order.
  lemma InsertAt(list: seq<Request>, r: Request)
    requires Sorted(list)
    ensures var l, a := Insert(list, r), Anchor(list, Key(r), 0);
      && l[a] == r && Remove(l, a) == list
      && forall j :: 0 <= j < |list| ==> (Key(list[j]) <= Key(r) <==> j < a)
  {
    hide Key;
    var a := Anchor(list, Key(r), 0);
    CutAndJoin(list, r, a);
    hide Remove;
    forall j | a <= j < |list| ensures Key(list[j]) > Key(r) {
      assert j > a ==> Key(list[a]) <= Key(list[j]);
    }
  }

  lemma CutAndJoin(list: seq<Request>, r: Request, a: nat)
    requires a <= |list|
    ensures var l := list[..a] + [r] + list[a..]; l[a] == r && Remove(l, a) == list
  {
  }

  lemma InsertSerials(list: seq<Request>, r: Request)
    ensures multiset(Serials(Insert(list, r))) == multiset(Serials(list)) + multiset{r.serial}
  {
    var a := Anchor(list, Key(r), 0);
    assert Serials(Insert(list, r)) == Serials(list)[..a] + [r.serial] + Serials(list)[a..];
    assert Serials(list) == Serials(list)[..a] + Serials(list)[a..];
  }

  lemma RemoveSerials(list: seq<Request>, i: nat)
    requires i < |list|
    ensures multiset(Serials(list)) == multiset(Serials(Remove(list, i))) + multiset{list[i].serial}
  {
    assert Serials(Remove(list, i)) == Serials(list)[..i] + Serials(list)[i + 1..];
    assert Serials(list) == Serials(list)[..i] + [list[i].serial] + Serials(list)[i + 1..];
  }

  lemma ArriveAccounted(q: Queue, owner: nat, idx: uint32)
    requires Accounted(q)
    ensures Accounted(Arrive(q, owner, idx))
  {
    var n := Arrive(q, owner, idx);
    if q.list != [] {
      InsertSerials(q.list, Request(q.next, idx, owner, owner));
    } else {
      assert Serials(n.list) == [q.next];
    }
    assert multiset(Serials(n.list)) == multiset(Serials(q.list)) + multiset{q.next};
    forall s: nat ensures multiset(n.served)[s] + multiset(Serials(n.list))[s] == if s < n.next then 1 else 0 {
      assert multiset(q.served)[s] + multiset(Serials(q.list))[s] == if s < q.next then 1 else 0;
    }
  }

  // Where the requests are after an insertion at a.
  predicate InsertedAt(l: seq<Request>, list: seq<Request>, r: Request, a: nat) {
    && a <= |list| && |l| == |list| + 1 && l[a] == r
    && forall j :: 0 <= j < |l| && j != a ==> l[j] == list[if j < a then j else j - 1]
  }

  lemma ArriveWaits(q: Queue, n: Queue, r: Request, a: nat)
    requires OnePerTask(q.list) && Sleepers(q) && q.list != [] && (exists b :: Serving(q, b))
    requires InsertedAt(n.list, q.list, r, a) && r.task == r.owner && n.blocked == q.blocked + {r.owner}
    requires r.owner !in q.blocked && !Pending(q, r.owner)
    ensures OnePerTask(n.list) && Sleepers(n) && exists b :: Serving(n, b)
  {
    ArriveSleepers(q, n, r, a);
    var b :| Serving(q, b);
    ArriveBehind(q, n, r, a, b);
    hide Serving, Sleepers;
    forall i, j | 0 <= i < j < |n.list| ensures n.list[i].owner != n.list[j].owner {
    }
  }

  lemma ArriveBehind(q: Queue, n: Queue, r: Request, a: nat, b: nat)
    requires Serving(q, b) && InsertedAt(n.list, q.list, r, a) && r.task == r.owner && n.blocked == q.blocked + {r.owner}
    requires !Pending(q, r.owner)
    ensures Serving(n, if b < a then b else b + 1)
  {
  }

  lemma ArriveSleepers(q: Queue, n: Queue, r: Request, a: nat)
    requires Sleepers(q) && InsertedAt(n.list, q.list, r, a) && n.blocked == q.blocked + {r.owner}
    ensures Sleepers(n)
  {
    forall t | t in n.blocked ensures Pending(n, t) {
      if t == r.owner {
        assert n.list[a].owner == t;
      } else {
        assert Pending(q, t);
        var i :| 0 <= i < |q.list| && q.list[i].owner == t;
        assert n.list[if i < a then i else i + 1].owner == t;
      }
    }
  }

  lemma NobodySleeps(q: Queue)
    requires Sleepers(q) && (|q.list| == 1 ==> q.list[0].owner !in q.blocked) && |q.list| <= 1
    ensures q.blocked == {}
  {
    assert forall t :: t in q.blocked ==> Pending(q, t);
  }

  lemma ArriveServing(q: Queue, owner: nat, idx: uint32)
    requires Inv(q) && owner !in q.blocked && !Pending(q, owner)
    ensures var n := Arrive(q, owner, idx); OnePerTask(n.list) && Sleepers(n) && exists a :: Serving(n, a)
  {
    hide Key, Accounted, Sorted;
    var n := Arrive(q, owner, idx);
    if q.list == [] {
      NobodySleeps(q);
      assert Serving(n, 0);
    } else {
      var r := Request(q.next, idx, owner, owner);
      var a := Anchor(q.list, Key(r), 0);
      assert InsertedAt(n.list, q.list, r, a);
      ArriveWaits(q, n, r, a);
    }
  }

  lemma ArriveKeeps(q: Queue, owner: nat, idx: uint32)
    requires Inv(q) && owner !in q.blocked && !Pending(q, owner)
    ensures Inv(Arrive(q, owner, idx))
  {
    ArriveServing(q, owner, idx);
    ArriveAccounted(q, owner, idx);
    if q.list != [] {
      InsertSorted(q.list, Request(q.next, idx, owner, owner));
    }
  }

  // ---------- handing over ----------

  lemma NextExists(n: nat, i: nat, direct: Direct)
    requires i < n
    ensures NextReq(n, i, direct).1 == -1 <==> n == 1
  {
  }

  // What a finished request leaves: one waiter woken if there is one, and nothing else.
  ghost predicate HandedOver(q: Queue, i: nat, n: Queue)
    requires i < |q.list|
  {
    && n.list == Remove(q.list, i) && n.served == q.served + [q.list[i].serial] && n.next == q.next
    && (if |q.list| == 1 then n.blocked == q.blocked == {}
        else exists j :: 0 <= j < |q.list| && j != i && q.list[j].owner in q.blocked && n.blocked == q.blocked - {q.list[j].owner}
               && Serving(n, if j < i then j else j - 1))
  }

  lemma FinishAccounted(q: Queue, i: nat)
    requires Accounted(q) && i < |q.list| && Finish(q, i).Ok?
    ensures Accounted(Finish(q, i).value)
  {
    var n := Finish(q, i).value;
    RemoveSerials(q.list, i);
    forall s: nat ensures multiset(n.served)[s] + multiset(Serials(n.list))[s] == if s < n.next then 1 else 0 {
      assert multiset(q.served)[s] + multiset(Serials(q.list))[s] == if s < q.next then 1 else 0;
    }
  }

  lemma FinishHandsOver(q: Queue, i: nat)
    requires Inv(q) && Serving(q, i)
    ensures Finish(q, i).Ok? && HandedOver(q, i, Finish(q, i).value)
  {
    NextExists(|q.list|, i, q.direct);
    var j := NextReq(|q.list|, i, q.direct).1;
    if j == -1 {
      NobodySleeps(q);
    } else {
      var n := Finish(q, i).value;
      var t := q.list[j].owner;
      forall k | 0 <= k < |n.list| && k != (if j < i then j else j - 1)
        ensures n.list[k].owner in n.blocked && n.list[k].task == n.list[k].owner
      {
        assert n.list[k] == q.list[if k < i then k else k + 1];
      }
      assert Serving(n, if j < i then j else j - 1);
    }
  }

  lemma FinishKeeps(q: Queue, i: nat)
    requires Inv(q) && Serving(q, i)
    ensures Finish(q, i).Ok? && Inv(Finish(q, i).value)
  {
    FinishHandsOver(q, i);
    FinishAccounted(q, i);
    RemoveKeeps(q.list, i);
    hide Key, Accounted, Finish, Remove, Sorted, OnePerTask;
    FinishSleepers(q, i, Finish(q, i).value);
  }

  lemma RemoveKeeps(list: seq<Request>, i: nat)
    requires Sorted(list) && OnePerTask(list) && i < |list|
    ensures Sorted(Remove(list, i)) && OnePerTask(Remove(list, i))
  {
    hide Key;
  }

  lemma FinishSleepers(q: Queue, i: nat, n: Queue)
    requires Sleepers(q) && Serving(q, i) && HandedOver(q, i, n)
    ensures Sleepers(n)
  {
    forall t | t in n.blocked ensures Pending(n, t) {
      assert Pending(q, t);
      var k :| 0 <= k < |q.list| && q.list[k].owner == t;
      assert n.list[if k < i then k else k - 1].owner == t;
    }
  }

  // ---------- every run ----------

  // A step that a task may take never stops the kernel: the next request has a recorded
  // owner, and that owner is asleep.
  lemma StepKeeps(q: Queue, e: Event)
    requires Inv(q)
    ensures Step(q, e).Ok? <==> Possible(q, e)
    ensures Step(q, e).Ok? ==> Inv(Step(q, e).value)
  {
    var i := PositionOf(q.list, e.owner, 0);
    hide Accounted, Sorted;
    if e.owner !in q.blocked {
      if e.Ask? && i == -1 {
        ArriveKeeps(q, e.owner, e.idx);
      } else if e.Done? && i != -1 {
        var a :| Serving(q, a);
        assert a == i;
        FinishKeeps(q, i);
      }
    }
  }

  function Run(q: Queue, es: seq<Event>): Result<Queue>
    decreases |es|
  {
    if es == [] then Ok(q) else var n :- Step(q, es[0]); Run(n, es[1..])
  }

  // In every state that is reached, exactly one pending request is being served and all
  // others sleep with their owner recorded, and every request made so far was served
  // once or is pending once.
  lemma {:induction false} RunKeeps(q: Queue, es: seq<Event>)
    requires Inv(q) && Run(q, es).Ok?
    ensures Inv(Run(q, es).value)
    decreases |es|
  {
    if es != [] {
      StepKeeps(q, es[0]);
      RunKeeps(Step(q, es[0]).value, es[1..]);
    }
  }

  // ---------- the sweep ----------

  // The order in which the requests are served from position i on, if no more arrive.
  function Drain(list: seq<Request>, i: nat, direct: Direct): (r: seq<Request>)
    requires i < |list|
    ensures |r| == |list|
    decreases |list|
  {
    var (d, j) := NextReq(|list|, i, direct);
    if j == -1 then [list[i]]
    else [list[i]] + Drain(Remove(list, i), if j < i then j else j - 1, d)
  }

  function Reversed<T>(list: seq<T>): (r: seq<T>)
    ensures |r| == |list|
  {
    if list == [] then [] else [list[|list| - 1]] + Reversed(list[..|list| - 1])
  }

  // One sweep: upwards, all from the current position to the end, and then back over
  // the rest; downwards the other way round.
  lemma {:induction false} SweepUp(list: seq<Request>, i: nat)
    requires i < |list|
    ensures Drain(list, i, Up) == list[i..] + Reversed(list[..i])
    decreases |list|
  {
    hide Drain, Reversed, Remove;
    var rest := Remove(list, i);
    DrainOnce(list, i, Up);
    Pieces(list, i);
    if i < |list| - 1 {
      SweepUp(rest, i);
    } else if i > 0 {
      SweepDown(rest, i - 1);
      assert rest[..i] == list[..i] && rest[i..] == [] && list[i..] == [list[i]];
    } else {
      assert list[..0] == [] && list[0..] == [list[0]];
      EmptyReversed<Request>();
    }
  }

  lemma {:induction false} SweepDown(list: seq<Request>, i: nat)
    requires i < |list|
    ensures Drain(list, i, Down) == Reversed(list[..i + 1]) + list[i + 1..]
    decreases |list|
  {
    hide Drain, Reversed, Remove;
    var rest := Remove(list, i);
    DrainOnce(list, i, Down);
    Pieces(list, i);
    ReversedLast(list, i);
    if i > 0 {
      SweepDown(rest, i - 1);
    } else if |list| > 1 {
      SweepUp(rest, 0);
      assert rest[0..] == rest && rest[..0] == [] && list[..0] == [];
    } else {
      assert list[..0] == [];
    }
    EmptyReversed<Request>();
  }

  lemma EmptyReversed<T>()
    ensures Reversed<T>([]) == []
  {
  }

  lemma Pieces(list: seq<Request>, i: nat)
    requires i < |list|
    ensures var rest := Remove(list, i);
      rest[..i] == list[..i] && rest[i..] == list[i + 1..] && list[i..] == [list[i]] + list[i + 1..]
  {
  }

  lemma ReversedLast(list: seq<Request>, i: nat)
    requires i < |list|
    ensures Reversed(list[..i + 1]) == [list[i]] + Reversed(list[..i])
  {
    assert list[..i + 1][..i] == list[..i];
  }

  lemma DrainOnce(list: seq<Request>, i: nat, direct: Direct)
    requires i < |list|
    ensures Drain(list, i, direct) ==
      if |list| == 1 then [list[i]]
      else if direct == Up && i == |list| - 1 then [list[i]] + Drain(Remove(list, i), i - 1, Down)
      else if direct == Up then [list[i]] + Drain(Remove(list, i), i, Up)
      else if i == 0 then [list[i]] + Drain(Remove(list, i), 0, Up)
      else [list[i]] + Drain(Remove(list, i), i - 1, Down)
  {
  }

  // ---------- the sweep is what the device does ----------

  function Finishes(list: seq<Request>): (es: seq<Event>)
    ensures |es| == |list|
  {
    if list == [] then [] else [Done(list[0].owner)] + Finishes(list[1..])
  }

  // Where requestNextreq goes from the request at position i, in the shorter list.
  function After(q: Queue, i: nat): int
    requires i < |q.list|
  {
    var j := NextReq(|q.list|, i, q.direct).1;
    if j < i then j else j - 1
  }

  lemma DrainStep(q: Queue, i: nat)
    requires i < |q.list| && |q.list| > 1 && Finish(q, i).Ok?
    ensures var n := Finish(q, i).value;
      0 <= After(q, i) < |n.list| && |n.list| == |q.list| - 1 && n.served == q.served + [q.list[i].serial]
      && Drain(q.list, i, q.direct) == [q.list[i]] + Drain(n.list, After(q, i), n.direct)
  {
    NextExists(|q.list|, i, q.direct);
  }

  // The run ends with nothing pending, nobody asleep, and `served` as the log.
  ghost predicate Ends(q: Queue, es: seq<Event>, served: seq<nat>) {
    && Run(q, es).Ok?
    && var n := Run(q, es).value;
    n.list == [] && n.blocked == {} && n.served == served
  }

  // The requests in `order` are served from state q on, in that order.
  ghost predicate Serves(q: Queue, order: seq<Request>) {
    Ends(q, Finishes(order), q.served + Serials(order))
  }

  lemma ServesLast(q: Queue, i: nat)
    requires Inv(q) && Serving(q, i) && |q.list| == 1
    ensures Serves(q, [q.list[i]])
  {
    FinishHandsOver(q, i);
    StepFinishes(q, i);
    var e := Done(q.list[i].owner);
    assert Finishes([q.list[i]]) == [e];
    RunOne(q, e);
    assert Serials([q.list[i]]) == [q.list[i].serial];
  }

  lemma ServesMore(q: Queue, i: nat, order: seq<Request>)
    requires Inv(q) && Serving(q, i) && Finish(q, i).Ok? && Serves(Finish(q, i).value, order)
    requires Finish(q, i).value.served == q.served + [q.list[i].serial]
    ensures Serves(q, [q.list[i]] + order)
  {
    var n, e := Finish(q, i).value, Done(q.list[i].owner);
    var all := [q.list[i]] + order;
    StepFinishes(q, i);
    EndsFirst(q, n, e, Finishes(order), n.served + Serials(order));
    hide *;
    FinishesFirst(q.list[i], order);
    SerialsFirst(q, n, q.list[i], order);
    ServesIs(q, all);
  }

  lemma ServesIs(q: Queue, order: seq<Request>)
    ensures Serves(q, order) <==> Ends(q, Finishes(order), q.served + Serials(order))
  {
  }

  lemma SerialsFirst(q: Queue, n: Queue, r: Request, order: seq<Request>)
    requires n.served == q.served + [r.serial]
    ensures q.served + Serials([r] + order) == n.served + Serials(order)
  {
  }

  lemma EndsFirst(q: Queue, n: Queue, e: Event, es: seq<Event>, served: seq<nat>)
    requires Step(q, e) == Ok(n) && Ends(n, es, served)
    ensures Ends(q, [e] + es, served)
  {
    RunFirst(q, e, es);
  }

  lemma FinishesFirst(r: Request, order: seq<Request>)
    ensures Finishes([r] + order) == [Done(r.owner)] + Finishes(order)
  {
    assert ([r] + order)[1..] == order;
  }

  lemma RunFirst(q: Queue, e: Event, es: seq<Event>)
    requires Step(q, e).Ok?
    ensures Run(q, [e] + es) == Run(Step(q, e).value, es)
  {
    assert ([e] + es)[1..] == es;
    hide Step;
  }

  // With no new arrivals n pending requests are served in n steps, in the order Drain.
  lemma {:induction false} DrainsInOrder(q: Queue, i: nat)
    requires Inv(q) && Serving(q, i)
    ensures |Finishes(Drain(q.list, i, q.direct))| == |q.list|
    ensures Serves(q, Drain(q.list, i, q.direct))
    decreases |q.list|
  {
    hide Inv, Serving, Finish, Serves, Drain, After;
    assert i < |q.list| by {
      ServingIs(q, i);
    }
    if |q.list| == 1 {
      ServesLast(q, i);
      DrainOnce(q.list, i, q.direct);
    } else {
      FinishKeeps(q, i);
      DrainStep(q, i);
      ServesNext(q, i);
      DrainsInOrder(Finish(q, i).value, After(q, i));
      ServesMore(q, i, Drain(Finish(q, i).value.list, After(q, i), Finish(q, i).value.direct));
    }
  }

  lemma ServingIs(q: Queue, i: nat)
    requires Serving(q, i)
    ensures i < |q.list|
  {
  }

  lemma RunOne(q: Queue, e: Event)
    ensures Run(q, [e]) == Step(q, e)
  {
    assert [e][1..] == [];
  }

  lemma StepFinishes(q: Queue, i: nat)
    requires Serving(q, i) && OnePerTask(q.list)
    ensures Step(q, Done(q.list[i].owner)) == Finish(q, i)
  {
  }

  lemma ServesNext(q: Queue, i: nat)
    requires Inv(q) && Serving(q, i) && |q.list| > 1
    ensures Finish(q, i).Ok? && Serving(Finish(q, i).value, After(q, i))
  {
    FinishHandsOver(q, i);
    NextExists(|q.list|, i, q.direct);
    var n := Finish(q, i).value;
    forall k | 0 <= k < |n.list| && k != After(q, i)
      ensures n.list[k].owner in n.blocked && n.list[k].task == n.list[k].owner
    {
      assert n.list[k] == q.list[if k < i then k else k + 1];
    }
  }
}
