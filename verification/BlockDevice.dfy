/**
 The request queue of src/kernel/device.cpp as it is written, over the linked list of
 module LinkedList.  deviceRequest is cut in two where the task may sleep.  Every method
 is proved to compute the function of the same meaning in module Elevator.
 */
module BlockDevice {
  import opened Outcome
  import opened Words
  import E = Elevator
  import opened LinkedList

  // The requests around the nodes of a list.
  function RequestsOf(nodes: seq<Node>, entries: map<Node, E.Request>): (l: seq<E.Request>)
    requires forall k :: 0 <= k < |nodes| ==> nodes[k] in entries
    ensures |l| == |nodes| && forall k :: 0 <= k < |l| ==> l[k] == entries[nodes[k]]
  {
    seq(|nodes|, k requires 0 <= k < |nodes| => entries[nodes[k]])
  }

  lemma RequestsWith(nodes: seq<Node>, entries: map<Node, E.Request>, req: Node, request: E.Request, a: nat)
    requires (forall k :: 0 <= k < |nodes| ==> nodes[k] in entries && nodes[k] != req) && a <= |nodes|
    ensures var after := nodes[..a] + [req] + nodes[a..];
      && (forall k :: 0 <= k < |after| ==> after[k] in entries[req := request])
      && RequestsOf(after, entries[req := request]) ==
         RequestsOf(nodes, entries)[..a] + [request] + RequestsOf(nodes, entries)[a..]
  {
  }

  lemma RequestsWithout(nodes: seq<Node>, entries: map<Node, E.Request>, k: nat)
    requires (forall i :: 0 <= i < |nodes| ==> nodes[i] in entries) && k < |nodes|
    ensures var after := nodes[..k] + nodes[k + 1..];
      (forall i :: 0 <= i < |after| ==> after[i] in entries) && RequestsOf(after, entries) == E.Remove(RequestsOf(nodes, entries), k)
  {
  }

  // Where listInsertSort puts the node is where Insert puts the request.
  lemma {:induction false} AnchorIs(list: seq<E.Request>, keys: seq<int>, key: int, i: nat)
    requires |keys| == |list| && (forall k :: 0 <= k < |list| ==> keys[k] == E.Key(list[k])) && i <= |list|
    ensures SortPoint(keys, key, i) == E.Anchor(list, key, i)
    decreases |list| - i
  {
    if i < |list| && keys[i] <= key {
      AnchorIs(list, keys, key, i + 1);
    }
  }

  lemma RemovedThere(nodes: seq<Node>, after: seq<Node>, req: Node, k: nat)
    requires k < |nodes| && nodes[k] == req && forall i, j :: 0 <= i < j < |nodes| ==> nodes[i] != nodes[j]
    requires exists i :: 0 <= i < |nodes| && nodes[i] == req && after == nodes[..i] + nodes[i + 1..]
    ensures after == nodes[..k] + nodes[k + 1..]
  {
  }

  lemma ArriveIs(q: E.Queue, owner: nat, idx: uint32)
    ensures E.Arrive(q, owner, idx) ==
      q.(list := E.Insert(q.list, E.Request(q.next, idx, owner, if q.list == [] then -1 else owner)),
         blocked := if q.list == [] then q.blocked else q.blocked + {owner}, next := q.next + 1)
  {
  }

  // A request that is named after it was inserted.
  lemma InsertNamed(list: seq<E.Request>, r: E.Request, task: nat)
    ensures var a := E.Anchor(list, E.Key(r), 0); var l := E.Insert(list, r);
      && a < |l| && l[a] == r && l[a := r.(task := task)] == E.Insert(list, r.(task := task))
      && |l| == |list| + 1
  {
    assert E.Key(r.(task := task)) == E.Key(r);
    hide E.Key;
  }

  class BlockDevice {
    const requestList: List
    var direct: E.Direct
    var blocked: set<nat>
    var entries: map<Node, E.Request> // the request around a node, ELEMENT_ENTRY
    ghost var served: seq<nat>
    var next: nat

    ghost predicate Valid()
      reads `entries, requestList, requestList.chain
    {
      requestList.Valid() && forall k :: 0 <= k < |requestList.Nodes()| ==> Entered(requestList.Nodes()[k])
    }

    // The key is at the offset of `idx`.
    ghost predicate Entered(n: Node)
      reads `entries
    {
      n in entries && n.key == E.Key(entries[n])
    }

    ghost function Requests(): seq<E.Request>
      requires Valid()
      reads `entries, requestList, requestList.chain
    {
      RequestsOf(requestList.Nodes(), entries)
    }

    ghost function View(): E.Queue
      requires Valid()
      reads this, requestList, requestList.chain
    {
      E.Queue(Requests(), direct, blocked, served, next)
    }

    constructor ()
      ensures Valid() && View() == E.Idle && fresh(requestList) && fresh(requestList.chain)
    {
      requestList := new List();
      direct := E.Up;
      blocked := {};
      entries := map[];
      served := [];
      next := 0;
    }

    // listInsertSort of a new node.
    method Enqueue(req: Node, request: E.Request) returns (ghost a: nat)
      requires Valid() && req.prev == null && req.next == null && req != requestList.head && req != requestList.tail
      requires req.key == E.Key(request)
      modifies this`entries, requestList, requestList.chain, req
      ensures Valid() && a == E.Anchor(old(Requests()), E.Key(request), 0) && entries == old(entries)[req := request]
      ensures a < |requestList.Nodes()| && requestList.Nodes()[a] == req
      ensures Requests() == E.Insert(old(Requests()), request)
    {
      ghost var nodes, before, list := requestList.Nodes(), entries, Requests();
      NotYet(req);
      AnchorIs(list, requestList.Keys(), E.Key(request), 0);
      hide E.Key, E.Anchor, SortPoint, RequestsOf, E.Insert;
      a := E.Anchor(list, E.Key(request), 0);
      entries := entries[req := request];
      var inserted := requestList.InsertSort(req);
      NowEntered(nodes, before, list, req, request, a);
    }

    lemma NotYet(req: Node)
      requires requestList.Valid() && req.prev == null && req.next == null
      ensures forall k :: 0 <= k < |requestList.Nodes()| ==> requestList.Nodes()[k] != req
    {
      requestList.Unlinked(req);
      forall k | 0 <= k < |requestList.Nodes()| ensures requestList.Nodes()[k] != req {
        assert requestList.Nodes()[k] == requestList.chain[k + 1];
      }
    }

    // What surrounds the other nodes has not changed.
    lemma NowEntered(nodes: seq<Node>, before: map<Node, E.Request>, list: seq<E.Request>, req: Node, request: E.Request, a: nat)
      requires requestList.Valid() && a <= |nodes| && requestList.Nodes() == nodes[..a] + [req] + nodes[a..]
      requires forall k :: 0 <= k < |nodes| ==> nodes[k] in before && nodes[k] != req && nodes[k].key == E.Key(before[nodes[k]])
      requires entries == before[req := request] && req.key == E.Key(request)
      requires list == RequestsOf(nodes, before) && a == E.Anchor(list, E.Key(request), 0)
      ensures Valid() && requestList.Nodes()[a] == req && Requests() == E.Insert(list, request)
    {
      RequestsWith(nodes, before, req, request, a);
      hide RequestsOf, E.Key, E.Anchor;
      forall k | 0 <= k < |requestList.Nodes()| ensures Entered(requestList.Nodes()[k]) {
        assert requestList.Nodes()[k] == if k < a then nodes[k] else if k == a then req else nodes[k - 1];
      }
    }

    // req->task
    method SetTask(req: Node, ghost a: nat, task: nat)
      requires Valid() && a < |requestList.Nodes()| && requestList.Nodes()[a] == req
      modifies this`entries
      ensures Valid() && Requests() == old(Requests())[a := old(Requests())[a].(task := task)]
    {
      OnceInChain();
      entries := entries[req := entries[req].(task := task)];
    }

    // kmalloc of a request, and its place in the list.
    method Admit(owner: nat, idx: uint32) returns (req: Node, ghost a: nat)
      requires Valid()
      modifies `entries, `next, requestList, requestList.chain
      ensures Valid() && fresh(req) && a < |requestList.Nodes()| && requestList.Nodes()[a] == req && req in requestList.Nodes()
      ensures next == old(next) + 1 && a < |Requests()|
      ensures Requests() == E.Insert(old(Requests()), E.Request(old(next), idx, owner, -1))
      ensures Requests()[a := Requests()[a].(task := owner)] == E.Insert(old(Requests()), E.Request(old(next), idx, owner, owner))
    {
      InsertNamed(Requests(), E.Request(next, idx, owner, -1), owner);
      hide RequestsOf, E.Anchor, E.Insert, E.Key;
      req := new Node(E.Key(E.Request(next, idx, owner, -1)));
      a := Enqueue(req, E.Request(next, idx, owner, -1));
      next := next + 1;
    }

    // The task is recorded, and goes to sleep.
    method Sleep(req: Node, ghost a: nat, owner: nat, empty: bool)
      requires Valid() && a < |requestList.Nodes()| && requestList.Nodes()[a] == req
      modifies `entries, `blocked
      ensures Valid() && blocked == if empty then old(blocked) else old(blocked) + {owner}
      ensures Requests() == if empty then old(Requests()) else old(Requests())[a := old(Requests())[a].(task := owner)]
    {
      if !empty {
        SetTask(req, a, owner);
        blocked := blocked + {owner};
      }
    }

    // deviceRequest up to the transfer; true if the task sleeps first.
    method Submit(owner: nat, idx: uint32) returns (req: Node, sleeps: bool)
      requires Valid()
      modifies this, requestList, requestList.chain
      ensures Valid() && fresh(req) && req in requestList.Nodes()
      ensures View() == E.Arrive(old(View()), owner, idx) && sleeps == (old(View()).list != [])
    {
      ghost var q := View();
      ViewParts();
      hide *;
      ArriveIs(q, owner, idx);
      var empty := requestList.Empty();
      ghost var a;
      req, a := Admit(owner, idx);
      Sleep(req, a, owner, empty);
      ViewParts();
      return req, !empty;
    }

    lemma ViewParts()
      requires Valid()
      ensures View() == E.Queue(Requests(), direct, blocked, served, next) && requestList.Valid()
      ensures Requests() == [] <==> requestList.Nodes() == []
    {
    }

    // The node in front of or behind a node of the list.
    lemma Neighbours(req: Node, k: nat)
      requires requestList.Valid() && k < |requestList.Nodes()| && requestList.Nodes()[k] == req
      ensures var n := requestList.Nodes();
        && req.next == (if k == |n| - 1 then requestList.tail else n[k + 1])
        && req.prev == (if k == 0 then requestList.head else n[k - 1])
      ensures requestList.head !in requestList.Nodes() && requestList.tail !in requestList.Nodes()
    {
      var c := requestList.chain;
      assert c[k].next == c[k + 1] && c[k + 1].prev == c[k] && c[k + 1].next == c[k + 2] && c[k + 2].prev == c[k + 1];
      forall i | 0 <= i < |requestList.Nodes()| ensures requestList.Nodes()[i] != requestList.head && requestList.Nodes()[i] != requestList.tail {
        assert requestList.Nodes()[i] == c[i + 1];
      }
    }

    // requestNextreq; null for none.
    method RequestNextreq(req: Node, ghost k: nat) returns (nextreq: Node?)
      requires Valid() && k < |requestList.Nodes()| && requestList.Nodes()[k] == req
      modifies this`direct
      ensures var (d, j) := E.NextReq(|requestList.Nodes()|, k, old(direct));
        direct == d && (if j == -1 then nextreq == null else nextreq == requestList.Nodes()[j])
    {
      Neighbours(req, k);
      if direct == E.Up && req.next == requestList.tail {
        direct := E.Down;
      } else if direct == E.Down && req.prev == requestList.head {
        direct := E.Up;
      }
      nextreq := if direct == E.Up then req.next else req.prev;
      if nextreq == requestList.head || nextreq == requestList.tail {
        return null;
      }
    }

    // deviceRequest after the transfer of the request at position k.
    method Complete(req: Node, ghost k: nat) returns (r: Result<()>)
      requires Valid() && k < |requestList.Nodes()| && requestList.Nodes()[k] == req
      modifies this, requestList, requestList.chain
      ensures Valid()
      ensures r.Halt? ==> E.Finish(old(View()), k) == Halt(r.why)
      ensures r.Ok? ==> E.Finish(old(View()), k) == Ok(View())
    {
      ghost var q := View();
      served := served + [entries[req].serial];
      hide RequestsOf, E.Remove, E.NextReq;
      var nextreq := RequestNextreq(req, k);
      Dequeue(req, k);
      if nextreq != null {
        var task := entries[nextreq].task;
        if task < 0 {
          return Halt(Undefined);
        }
        if task !in blocked {
          return Halt(AssertFailed);
        }
        blocked := blocked - {task};
      }
      return Ok(());
    }

    // listRemove
    method Dequeue(req: Node, ghost k: nat)
      requires Valid() && k < |requestList.Nodes()| && requestList.Nodes()[k] == req
      modifies requestList, requestList.chain
      ensures Valid() && Requests() == E.Remove(old(Requests()), k)
    {
      ghost var nodes := requestList.Nodes();
      OnceInChain();
      RequestsWithout(nodes, entries, k);
      hide RequestsOf, E.Remove, E.Key;
      var removed := requestList.Remove(req);
      RemovedThere(nodes, requestList.Nodes(), req, k);
      RestEntered(nodes, k);
    }

    lemma RestEntered(nodes: seq<Node>, k: nat)
      requires requestList.Valid() && k < |nodes| && requestList.Nodes() == nodes[..k] + nodes[k + 1..]
      requires forall i :: 0 <= i < |nodes| ==> Entered(nodes[i])
      ensures Valid()
    {
      forall i | 0 <= i < |requestList.Nodes()| ensures Entered(requestList.Nodes()[i]) {
        assert requestList.Nodes()[i] == nodes[if i < k then i else i + 1];
      }
    }

    lemma OnceInChain()
      requires requestList.Valid()
      ensures forall i, j :: 0 <= i < j < |requestList.Nodes()| ==> requestList.Nodes()[i] != requestList.Nodes()[j]
    {
      forall i, j | 0 <= i < j < |requestList.Nodes()| ensures requestList.Nodes()[i] != requestList.Nodes()[j] {
        assert requestList.chain[i + 1] != requestList.chain[j + 1];
      }
    }
  }
}
