/**
 The intrusive doubly linked list of src/lib/list.cpp: nodes between two sentinels,
 rewired in place.  The list stands for a sequence of nodes; every operation is proved
 against the sequence.
 */
module LinkedList {
  import opened Outcome

  class Node {
    var prev: Node?
    var next: Node?
    const key: int

    constructor (key: int)
      ensures prev == null && next == null && this.key == key
    {
      this.key := key;
      prev, next := null, null;
    }
  }

  // The position in front of which listInsertSort puts a key: that of the first larger.
  function SortPoint(keys: seq<int>, key: int, i: nat): (r: nat)
    requires i <= |keys|
    ensures i <= r <= |keys| && (forall j :: i <= j < r ==> keys[j] <= key) && (r < |keys| ==> keys[r] > key)
    decreases |keys| - i
  {
    if i == |keys| || keys[i] > key then i else SortPoint(keys, key, i + 1)
  }

  predicate Sorted(keys: seq<int>) {
    forall i, j :: 0 <= i < j < |keys| ==> keys[i] <= keys[j]
  }

  // Insertion there keeps a sorted list sorted, and is stable: the new key is behind all
  // equal ones.
  lemma SortPointKeeps(keys: seq<int>, key: int)
    requires Sorted(keys)
    ensures var p := SortPoint(keys, key, 0);
      && Sorted(keys[..p] + [key] + keys[p..])
      && forall j :: 0 <= j < |keys| ==> (keys[j] <= key <==> j < p)
  {
    var p := SortPoint(keys, key, 0);
    forall j | p <= j < |keys| ensures keys[j] > key {
      assert j > p ==> keys[p] <= keys[j];
    }
    var r := keys[..p] + [key] + keys[p..];
    assert forall j :: 0 <= j < |r| ==> r[j] == if j < p then keys[j] else if j == p then key else keys[j - 1];
  }

  // Along the chain next and prev are inverse to each other.
  ghost predicate LinkedUp(c: seq<Node>)
    reads c
  {
    forall i :: 0 <= i < |c| - 1 ==> c[i].next == c[i + 1] && c[i + 1].prev == c[i]
  }

  ghost predicate NoRepeat(c: seq<Node>) {
    forall i, j :: 0 <= i < j < |c| ==> c[i] != c[j]
  }

  class List {
    const head: Node
    const tail: Node
    ghost var chain: seq<Node>

    // next and prev are inverse to each other along the chain, which goes from one
    // sentinel to the other and meets no node twice.
    ghost predicate Valid()
      reads this, chain
    {
      && |chain| >= 2 && chain[0] == head && chain[|chain| - 1] == tail
      && NoRepeat(chain) && LinkedUp(chain) && head.prev == null && tail.next == null
    }

    // The nodes of the list, without the sentinels.
    ghost function Nodes(): (n: seq<Node>)
      requires |chain| >= 2
      reads this
      ensures |n| == |chain| - 2 && forall i :: 0 <= i < |n| ==> n[i] == chain[i + 1]
    {
      chain[1..|chain| - 1]
    }

    ghost function Keys(): (k: seq<int>)
      requires |chain| >= 2
      reads this
      ensures |k| == |Nodes()| && forall i :: 0 <= i < |k| ==> k[i] == Nodes()[i].key
    {
      var n := Nodes();
      seq(|n|, i requires 0 <= i < |n| => n[i].key)
    }

    // listInit
    constructor ()
      ensures Valid() && Nodes() == [] && fresh(head) && fresh(tail)
    {
      head := new Node(0);
      tail := new Node(0);
      chain := [];
      new;
      head.prev := null;
      tail.next := null;
      head.next := tail;
      tail.prev := head;
      chain := [head, tail];
    }

    // The anchor is at position k of the chain: a node of the list, or the tail.
    method InsertBefore(anchor: Node, node: Node, ghost k: nat)
      requires Valid() && 0 < k < |chain| && chain[k] == anchor && node !in chain
      modifies this, chain, node
      ensures Valid() && Nodes() == old(Nodes())[..k - 1] + [node] + old(Nodes())[k - 1..]
    {
      ghost var c := chain;
      assert c[k - 1].next == c[k] && c[k].prev == c[k - 1];
      node.prev := anchor.prev;
      node.next := anchor;
      anchor.prev.next := node;
      anchor.prev := node;
      chain := c[..k] + [node] + c[k..];
      Inserted(c, node, k);
    }

    // The anchor is at position k of the chain: the head, or a node of the list.
    method InsertAfter(anchor: Node, node: Node, ghost k: nat)
      requires Valid() && k < |chain| - 1 && chain[k] == anchor && node !in chain
      modifies this, chain, node
      ensures Valid() && Nodes() == old(Nodes())[..k] + [node] + old(Nodes())[k..]
    {
      ghost var c := chain;
      assert c[k].next == c[k + 1] && c[k + 1].prev == c[k];
      node.prev := anchor;
      node.next := anchor.next;
      anchor.next.prev := node;
      anchor.next := node;
      chain := c[..k + 1] + [node] + c[k + 1..];
      Inserted(c, node, k + 1);
    }

    // Node is new at position k of the chain, and the four links around it are set.
    lemma Inserted(c: seq<Node>, node: Node, k: nat)
      requires 0 < k < |c| && chain == c[..k] + [node] + c[k..] && NoRepeat(c) && node !in c
      requires forall i :: 0 <= i < |c| - 1 && i != k - 1 ==> c[i].next == c[i + 1] && c[i + 1].prev == c[i]
      requires c[k - 1].next == node && node.prev == c[k - 1] && node.next == c[k] && c[k].prev == node
      ensures NoRepeat(chain) && LinkedUp(chain)
      ensures chain[1..|chain| - 1] == c[1..|c| - 1][..k - 1] + [node] + c[1..|c| - 1][k - 1..]
    {
      forall i | 0 <= i < |chain| ensures chain[i] == if i < k then c[i] else if i == k then node else c[i - 1] {
      }
      forall i | 0 <= i < |chain| - 1 ensures chain[i].next == chain[i + 1] && chain[i + 1].prev == chain[i] {
        if i < k - 1 {
          assert c[i].next == c[i + 1];
        } else if i > k {
          assert c[i - 1].next == c[i - 1 + 1];
        }
      }
      InsertedNodes(c, node, k);
    }

    lemma InsertedNodes(c: seq<Node>, node: Node, k: nat)
      requires 0 < k < |c|
      ensures var d := c[..k] + [node] + c[k..];
        d[1..|d| - 1] == c[1..|c| - 1][..k - 1] + [node] + c[1..|c| - 1][k - 1..]
    {
      var d, e := c[..k] + [node] + c[k..], c[1..|c| - 1];
      var x, y := d[1..|d| - 1], e[..k - 1] + [node] + e[k - 1..];
      assert |x| == |y| == |c| - 1;
      forall i | 0 <= i < |x| ensures x[i] == y[i] {
        assert x[i] == d[i + 1];
        assert i < k - 1 ==> d[i + 1] == c[i + 1] == e[i];
        assert i > k - 1 ==> d[i + 1] == c[i] == e[i - 1];
      }
    }

    method Search(node: Node) returns (found: bool)
      requires Valid()
      ensures found <==> node in Nodes()
    {
      assert chain[0].next == chain[1];
      var next := head.next;
      ghost var k := 1;
      while next != tail
        invariant 1 <= k < |chain| && next == chain[k] && forall i :: 1 <= i < k ==> chain[i] != node
        decreases |chain| - k
      {
        assert k < |chain| - 1;
        if next == node {
          assert Nodes()[k - 1] == node;
          return true;
        }
        assert chain[k].next == chain[k + 1];
        next := next.next;
        k := k + 1;
      }
      assert k == |chain| - 1;
      return false;
    }

    method Empty() returns (empty: bool)
      requires Valid()
      ensures empty <==> Nodes() == []
    {
      assert chain[0].next == chain[1];
      return head.next == tail;
    }

    method Size() returns (size: nat)
      requires Valid()
      ensures size == |Nodes()|
    {
      assert chain[0].next == chain[1];
      var next := head.next;
      size := 0;
      while next != tail
        invariant size + 1 < |chain| && next == chain[size + 1]
        decreases |chain| - size
      {
        assert size + 1 < |chain| - 1;
        assert chain[size + 1].next == chain[size + 2];
        size := size + 1;
        next := next.next;
      }
      assert size + 1 == |chain| - 1;
    }

    // listRemove of the node at position k of the chain.
    method Unlink(node: Node, ghost k: nat)
      requires Valid() && 0 < k < |chain| - 1 && chain[k] == node
      modifies this, chain
      ensures Valid() && Nodes() == old(Nodes())[..k - 1] + old(Nodes())[k..]
      ensures node.prev == null && node.next == null && node !in chain
    {
      ghost var c := chain;
      assert c[k - 1].next == c[k] && c[k].prev == c[k - 1];
      assert c[k].next == c[k + 1] && c[k + 1].prev == c[k];
      node.prev.next := node.next;
      node.next.prev := node.prev;
      node.next := null;
      node.prev := null;
      chain := c[..k] + c[k + 1..];
      Removed(c, k);
    }

    lemma Removed(c: seq<Node>, k: nat)
      requires 0 < k < |c| - 1 && chain == c[..k] + c[k + 1..] && NoRepeat(c)
      requires forall i :: 0 <= i < |c| - 1 && i != k - 1 && i != k ==> c[i].next == c[i + 1] && c[i + 1].prev == c[i]
      requires c[k - 1].next == c[k + 1] && c[k + 1].prev == c[k - 1]
      ensures NoRepeat(chain) && LinkedUp(chain) && c[k] !in chain
      ensures chain[1..|chain| - 1] == c[1..|c| - 1][..k - 1] + c[1..|c| - 1][k..]
    {
      forall i | 0 <= i < |chain| ensures chain[i] == c[if i < k then i else i + 1] {
      }
      forall i | 0 <= i < |chain| - 1 ensures chain[i].next == chain[i + 1] && chain[i + 1].prev == chain[i] {
        if i < k - 1 {
          assert c[i].next == c[i + 1];
        } else if i >= k {
          assert c[i + 1].next == c[i + 1 + 1];
        }
      }
    }

    // listRemove: a node that is not linked at both ends fails its asserts.
    method Remove(node: Node) returns (r: Result<()>)
      requires Valid() && (node in Nodes() || node.prev == null || node.next == null)
      modifies this, chain
      ensures Valid() && (r.Ok? <==> node in old(Nodes())) && (r.Halt? ==> r.why == AssertFailed && Nodes() == old(Nodes()))
      ensures r.Ok? ==> exists k :: 0 <= k < |old(Nodes())| && old(Nodes())[k] == node
                                    && Nodes() == old(Nodes())[..k] + old(Nodes())[k + 1..]
    {
      ghost var k := 0;
      if node in Nodes() {
        k :| 0 <= k < |Nodes()| && Nodes()[k] == node;
        assert chain[k].next == chain[k + 1] && chain[k + 1].prev == chain[k] && chain[k + 1].next == chain[k + 2];
      }
      if node.prev == null || node.next == null {
        return Halt(AssertFailed);
      }
      Unlink(node, k + 1);
      assert old(Nodes())[k] == node && Nodes() == old(Nodes())[..k] + old(Nodes())[k + 1..];
      return Ok(());
    }

    method Push(node: Node) returns (r: Result<()>)
      requires Valid() && node != head && node != tail
      modifies this, chain, node
      ensures Valid() && r == if node in old(Nodes()) then Halt(AssertFailed) else Ok(())
      ensures Nodes() == if r.Ok? then [node] + old(Nodes()) else old(Nodes())
    {
      var found := Search(node);
      if found {
        return Halt(AssertFailed);
      }
      NotInChain(node);
      InsertAfter(head, node, 0);
      return Ok(());
    }

    method Pushback(node: Node) returns (r: Result<()>)
      requires Valid() && node != head && node != tail
      modifies this, chain, node
      ensures Valid() && r == if node in old(Nodes()) then Halt(AssertFailed) else Ok(())
      ensures Nodes() == if r.Ok? then old(Nodes()) + [node] else old(Nodes())
    {
      var found := Search(node);
      if found {
        return Halt(AssertFailed);
      }
      NotInChain(node);
      InsertBefore(tail, node, |chain| - 1);
      return Ok(());
    }

    lemma NotInChain(node: Node)
      requires Valid() && node != head && node != tail && node !in Nodes()
      ensures node !in chain
    {
      forall i | 0 <= i < |chain| ensures chain[i] != node {
        assert 0 < i < |chain| - 1 ==> chain[i] == Nodes()[i - 1];
      }
    }

    method Pop() returns (r: Result<Node>)
      requires Valid()
      modifies this, chain
      ensures Valid() && (r.Ok? <==> old(Nodes()) != []) && (r.Halt? ==> r.why == AssertFailed && Nodes() == old(Nodes()))
      ensures r.Ok? ==> r.value == old(Nodes())[0] && Nodes() == old(Nodes())[1..] && r.value.prev == null && r.value.next == null
    {
      var empty := Empty();
      if empty {
        return Halt(AssertFailed);
      }
      assert chain[0].next == chain[1];
      var node := head.next;
      Unlink(node, 1);
      return Ok(node);
    }

    method Popback() returns (r: Result<Node>)
      requires Valid()
      modifies this, chain
      ensures Valid() && (r.Ok? <==> old(Nodes()) != []) && (r.Halt? ==> r.why == AssertFailed && Nodes() == old(Nodes()))
      ensures r.Ok? ==> r.value == old(Nodes())[|old(Nodes())| - 1] && Nodes() == old(Nodes())[..|old(Nodes())| - 1]
      ensures r.Ok? ==> r.value.prev == null && r.value.next == null
    {
      var empty := Empty();
      if empty {
        return Halt(AssertFailed);
      }
      ghost var k := |chain| - 2;
      assert chain[k].next == chain[k + 1] && chain[k + 1].prev == chain[k];
      var node := tail.prev;
      Unlink(node, k);
      return Ok(node);
    }

    // listInsertSort: the node goes in front of the first larger key.
    method InsertSort(node: Node) returns (r: Result<()>)
      requires Valid() && node != head && node != tail
      modifies this, chain, node
      ensures Valid() && (r.Ok? <==> old(node.next) == null && old(node.prev) == null)
      ensures r.Halt? ==> r.why == AssertFailed && Nodes() == old(Nodes())
      ensures r.Ok? ==> var p := SortPoint(old(Keys()), node.key, 0);
        Nodes() == old(Nodes())[..p] + [node] + old(Nodes())[p..] && Keys() == old(Keys())[..p] + [node.key] + old(Keys())[p..]
      ensures r.Ok? && Sorted(old(Keys())) ==> Sorted(Keys())
    {
      var anchor, key := tail, node.key;
      ghost var keys, k := Keys(), 1;
      assert chain[0].next == chain[1];
      var ptr := head.next;
      while ptr != tail
        invariant 1 <= k < |chain| && ptr == chain[k] && anchor == tail
        invariant SortPoint(keys, key, k - 1) == SortPoint(keys, key, 0)
        decreases |chain| - k
      {
        assert k < |chain| - 1 && Nodes()[k - 1] == ptr;
        if ptr.key > key {
          anchor := ptr;
          break;
        }
        assert chain[k].next == chain[k + 1];
        ptr := ptr.next;
        k := k + 1;
      }
      assert anchor == chain[k] && (anchor == tail ==> k == |chain| - 1);
      assert SortPoint(keys, key, 0) == k - 1;
      if node.next != null || node.prev != null {
        return Halt(AssertFailed);
      }
      Unlinked(node);
      InsertBefore(anchor, node, k);
      assert Keys() == keys[..k - 1] + [key] + keys[k - 1..];
      if Sorted(keys) {
        SortPointKeeps(keys, key);
      }
      return Ok(());
    }

    // A node without links is in no list.
    lemma Unlinked(node: Node)
      requires Valid() && node.next == null && node.prev == null
      ensures node !in chain
    {
      forall i | 0 <= i < |chain| ensures chain[i] != node {
        assert i < |chain| - 1 ==> chain[i].next == chain[i + 1];
        assert i > 0 ==> chain[i - 1].next == chain[i - 1 + 1] && chain[i - 1 + 1].prev == chain[i - 1];
      }
    }
  }
}
