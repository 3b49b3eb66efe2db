/**
 The kernel's lists as sequences of the numbers of what is linked into them.
 Module LinkedList proves the pointers of src/lib/list.cpp against sequences.
 */
module Lists {

  ghost predicate NoDup(l: seq<nat>) {
    forall i, j :: 0 <= i < j < |l| ==> l[i] != l[j]
  }

  // listRemove: i leaves the list, the rest keeps its order.
  function Drop(l: seq<nat>, i: nat): (r: seq<nat>)
    ensures forall x :: x in r <==> x in l && x != i
    ensures |r| <= |l|
  {
    if l == [] then [] else if l[0] == i then Drop(l[1..], i) else [l[0]] + Drop(l[1..], i)
  }

  lemma {:induction false} DropNoDup(l: seq<nat>, i: nat)
    requires NoDup(l)
    ensures NoDup(Drop(l, i))
  {
    if l != [] {
      DropNoDup(l[1..], i);
      assert l[0] !in l[1..];
    }
  }

  lemma {:induction false} DropAbsent(l: seq<nat>, i: nat)
    requires i !in l
    ensures Drop(l, i) == l
  {
    if l != [] {
      DropAbsent(l[1..], i);
    }
  }

  // What Drop does is to cut out one position.
  lemma {:induction false} DropAt(l: seq<nat>, k: nat)
    requires NoDup(l) && k < |l|
    ensures Drop(l, l[k]) == l[..k] + l[k + 1..]
  {
    if k == 0 {
      DropAbsent(l[1..], l[0]);
    } else {
      DropAt(l[1..], k - 1);
      assert l[1..][..k - 1] == l[1..k] && l[1..][k..] == l[k + 1..];
    }
  }
}
