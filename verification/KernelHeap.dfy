/**
 src/kernel/arena.cpp as it is written, over the kernel page bitmap: descriptors are
 searched, new arenas carved up and empty ones dismantled block by block.  Each
 method is proved to compute the function of the same name in module Heap.
 */
module KernelHeap {
  import opened Outcome
  import opened Bitmap
  import H = Heap

  class KernelHeap {
    const kernelMap: BitmapT
    var arenas: map<nat, H.Arena>
    var lists: seq<seq<nat>>

    ghost function View(): H.Heap
      reads this, kernelMap.bits
    {
      H.Heap(kernelMap.View(), arenas, lists)
    }

    ghost predicate Valid()
      reads this, kernelMap.bits
    {
      kernelMap.offset == H.KBASE && 8 * kernelMap.bits.Length == H.KPAGES && H.Inv(View())
    }

    // kernelMap as memoryMapInit leaves it (the pages of memoryMap are taken), and
    // arenaInit: seven empty lists.
    constructor (memoryMapPages: nat)
      requires 0 < memoryMapPages <= H.KPAGES
      ensures Valid() && fresh(kernelMap) && fresh(kernelMap.bits)
      ensures arenas == map[] && lists == seq(H.CLASSES, _ => [])
      ensures View().kmap == Fill(seq(H.KPAGES, _ => false), 0, memoryMapPages, true)
    {
      kernelMap := new BitmapT(H.KPAGES / 8, H.KBASE);
      arenas := map[];
      lists := seq(H.CLASSES, _ => []);
      new;
      assert IsFirstFit(kernelMap.View(), memoryMapPages, 0);
      FirstFitIs(kernelMap.View(), memoryMapPages, 0, 0);
      var first := kernelMap.Scan(memoryMapPages);
    }

    method AllocKpage(count: nat) returns (r: Result<nat>)
      requires kernelMap.offset == H.KBASE
      modifies kernelMap.bits
      ensures r.Halt? ==> H.AllocKpage(old(kernelMap.View()), count) == Halt(r.why)
      ensures r.Ok? ==> H.AllocKpage(old(kernelMap.View()), count) == Ok((kernelMap.View(), r.value))
    {
      if count == 0 {
        return Halt(AssertFailed);
      }
      var index := kernelMap.Scan(count);
      if index == -1 {
        return Halt(OutOfMemory);
      }
      return Ok(index);
    }

    method FreeKpage(page: nat, count: nat) returns (r: Result<()>)
      requires kernelMap.offset == H.KBASE
      modifies kernelMap.bits
      ensures r.Halt? ==> H.FreeKpage(old(kernelMap.View()), page, count) == Halt(r.why)
      ensures r.Ok? ==> H.FreeKpage(old(kernelMap.View()), page, count) == Ok(kernelMap.View())
    {
      if count == 0 || page < kernelMap.offset || page + count > kernelMap.offset + 8 * kernelMap.bits.Length {
        return Halt(AssertFailed);
      }
      var ok := kernelMap.Reset(page, count);
      if !ok {
        return Halt(AssertFailed);
      }
      return Ok(());
    }

    // The descriptor whose blocks are large enough.
    method Descriptor(size: nat) returns (k: nat)
      requires size <= 1024
      ensures k == H.ClassFor(size)
    {
      k := 0;
      while k < H.CLASSES - 1 && H.BlockSize(k) < size
        invariant k < H.CLASSES && forall j :: 0 <= j < k ==> H.BlockSize(j) < size
      {
        k := k + 1;
      }
      assert H.BlockSize(k) >= size;
      ClassUnique(size, k);
    }

    // A new arena, all of its blocks pushed on the list of its class.
    method Carve(k: nat) returns (r: Result<()>)
      requires kernelMap.offset == H.KBASE && k < H.CLASSES == |lists| && lists[k] == []
      modifies this, kernelMap.bits
      ensures r.Halt? ==> H.NewArena(old(View()), k) == Halt(r.why)
      ensures r.Ok? ==> H.NewArena(old(View()), k) == Ok(View())
    {
      ghost var before := lists;
      var page := AllocKpage(1);
      if page.Halt? {
        return Halt(page.why);
      }
      var p := page.value;
      arenas := arenas[p := H.Small(k, H.TotalBlock(k))];
      ghost var added, kmap := arenas, kernelMap.View();
      hide H.Block, H.BlockSize, H.AllocKpage;
      var i := 0;
      while i < H.TotalBlock(k)
        invariant 0 <= i <= H.TotalBlock(k)
        invariant arenas == added && kernelMap.View() == kmap
        invariant lists == before[k := H.PushAll(p, k, i)]
      {
        var block := H.Block(p, k, i);
        lists := lists[k := [block] + lists[k]];
        i := i + 1;
      }
      return Ok(());
    }

    // The tail of kmalloc: the first block of the list leaves it.
    method Pop(k: nat) returns (block: nat)
      requires k < H.CLASSES && H.Sound(View()) && lists[k] != []
      modifies this
      ensures var h := old(View()); var p := H.ArenaOf(h.lists[k][0]);
        && block == h.lists[k][0] && p in h.arenas && h.arenas[p].Small? && h.arenas[p].count > 0
        && View() == h.(arenas := h.arenas[p := h.arenas[p].(count := h.arenas[p].count - 1)],
                        lists := h.lists[k := h.lists[k][1..]])
    {
      H.HeadArena(View(), k);
      hide H.Sound;
      block := lists[k][0];
      lists := lists[k := lists[k][1..]];
      var p := H.ArenaOf(block);
      arenas := arenas[p := arenas[p].(count := arenas[p].count - 1)];
    }

    method Kmalloc(size: nat) returns (r: Result<nat>)
      requires Valid()
      modifies this, kernelMap.bits
      ensures r.Halt? ==> H.Kmalloc(old(View()), size) == Halt(r.why)
      ensures r.Ok? ==> H.Kmalloc(old(View()), size) == Ok((View(), r.value)) && Valid()
    {
      H.KmallocKeeps(View(), size);
      hide H.Inv, H.Kmalloc;
      if size > 1024 {
        r := KmallocLarge(size);
      } else {
        r := KmallocSmall(size);
      }
    }

    method KmallocLarge(size: nat) returns (r: Result<nat>)
      requires Valid() && size > 1024
      modifies this, kernelMap.bits
      ensures r.Halt? ==> H.Kmalloc(old(View()), size) == Halt(r.why)
      ensures r.Ok? ==> H.Kmalloc(old(View()), size) == Ok((View(), r.value))
    {
      assert |lists| == H.CLASSES;
      hide H.Inv, H.LargePages;
      var count := H.LargePages(size);
      var page := AllocKpage(count);
      if page.Halt? {
        return Halt(page.why);
      }
      arenas := arenas[page.value := H.Large(count)];
      return Ok(page.value * H.PAGE + H.HEADER);
    }

    method KmallocSmall(size: nat) returns (r: Result<nat>)
      requires Valid() && size <= 1024
      modifies this, kernelMap.bits
      ensures r.Halt? ==> H.Kmalloc(old(View()), size) == Halt(r.why)
      ensures r.Ok? ==> H.Kmalloc(old(View()), size) == Ok((View(), r.value))
    {
      assert |lists| == H.CLASSES && H.Sound(View());
      hide H.Inv, H.Sound, H.NewArena, H.Live, H.Capacity, H.ClassFor;
      var k := Descriptor(size);
      if lists[k] == [] {
        ghost var h := View();
        var carved := Carve(k);
        if carved.Halt? {
          return Halt(carved.why);
        }
        H.NewArenaKeeps(h, k);
      }
      var block := Pop(k);
      return Ok(block);
    }

    // Only for what kmalloc has handed out; then no assert can fail.
    method Kfree(a: nat)
      requires Valid() && H.Live(View(), a)
      modifies this, kernelMap.bits
      ensures H.Kfree(old(View()), a) == Ok(View()) && Valid()
    {
      H.KfreeKeeps(View(), a);
      H.LiveInside(View(), a);
      ghost var h := View();
      LiveFacts(h, a);
      hide H.Inv, H.Sound, H.Live, H.Capacity, H.FreeKpage;
      var p := H.ArenaOf(a);
      match arenas[p] {
        case Large(count) =>
          var done := FreeKpage(p, count);
          arenas := arenas - {p};
        case Small(k, count) =>
          lists := lists[k := [a] + lists[k]];
          arenas := arenas[p := H.Small(k, count + 1)];
          if count + 1 == H.TotalBlock(k) {
            FullPage(h, a, k, p);
            Dismantle(k, p);
            var done := FreeKpage(p, 1);
            arenas := arenas - {p};
            assert arenas == h.arenas - {p};
            assert lists == h.lists[k := H.Without([a] + h.lists[k], p)];
          }
      }
    }

    // The loop at the end of kfree: every block of the page leaves the free list.
    method Dismantle(k: nat, p: nat)
      requires H.Sound(View()) && k < H.CLASSES == |lists| && p in arenas && arenas[p] == H.Small(k, H.TotalBlock(k))
      modifies this`lists
      ensures lists == old(lists)[k := H.Without(old(lists)[k], p)]
    {
      hide *;
      ghost var h := View();
      Fields();
      ghost var l := lists[k];
      var i := 0;
      MinusNone(l, p, k);
      while i < H.TotalBlock(k)
        invariant 0 <= i <= H.TotalBlock(k)
        invariant lists == h.lists[k := Minus(l, p, k, i)]
      {
        OneMore(h, p, k, i);
        var block := H.Block(p, k, i);
        var list := Removed(lists[k], block);
        lists := lists[k := list];
        i := i + 1;
      }
      PageBlocks(h, p, k);
      MinusAll(l, p, k);
    }

    lemma Fields()
      ensures View().lists == lists && View().arenas == arenas
    {
    }
  }

  lemma OneMore(h: H.Heap, p: nat, k: nat, i: nat)
    requires H.Sound(h) && k < H.CLASSES && p in h.arenas && h.arenas[p] == H.Small(k, H.TotalBlock(k)) && i < H.TotalBlock(k)
    ensures H.Block(p, k, i) in Minus(h.lists[k], p, k, i)
    ensures Removed(Minus(h.lists[k], p, k, i), H.Block(p, k, i)) == Minus(h.lists[k], p, k, i + 1)
  {
    BlockListed(h, p, k, i);
    MinusNext(h.lists[k], p, k, i);
  }

  lemma FullPage(h: H.Heap, a: nat, k: nat, p: nat)
    requires H.Inv(h) && H.Live(h, a) && H.ArenaOf(a) == p && p in h.arenas && |h.lists| == H.CLASSES && k < H.CLASSES
    requires h.arenas[p] == H.Small(k, H.TotalBlock(k) - 1)
    ensures var h1 := H.Pushed(h, a);
      && H.Sound(h1) && h1.arenas == h.arenas[p := H.Small(k, H.TotalBlock(k))]
      && |h1.lists| == H.CLASSES
  {
    H.PushKeeps(h, a);
  }

  lemma LiveFacts(h: H.Heap, a: nat)
    requires H.Inv(h) && H.Live(h, a)
    ensures var p := H.ArenaOf(a);
      && a != 0 && p in h.arenas && |h.lists| == H.CLASSES
      && (h.arenas[p].Small? ==> h.arenas[p].desc < H.CLASSES && a !in h.lists[h.arenas[p].desc])
  {
    H.LiveInside(h, a);
  }

  lemma ClassUnique(size: nat, k: nat)
    requires size <= 1024 && k < H.CLASSES && size <= H.BlockSize(k) && forall j :: 0 <= j < k ==> H.BlockSize(j) < size
    ensures k == H.ClassFor(size)
  {
  }

  // listRemove on the sequence of a list: the node leaves, the order stays.
  function Removed(l: seq<nat>, x: nat): (r: seq<nat>)
    requires x in l
    ensures |r| == |l| - 1
  {
    if l[0] == x then l[1..] else [l[0]] + Removed(l[1..], x)
  }

  ghost predicate BlockBelow(x: nat, p: nat, k: nat, n: nat)
    requires k < H.CLASSES
  {
    exists i: nat :: i < n && x == H.Block(p, k, i)
  }

  // The list without blocks 0..n of page p.
  ghost function Minus(l: seq<nat>, p: nat, k: nat, n: nat): seq<nat>
    requires k < H.CLASSES
  {
    if l == [] then []
    else if BlockBelow(l[0], p, k, n) then Minus(l[1..], p, k, n)
    else [l[0]] + Minus(l[1..], p, k, n)
  }

  lemma BlockListed(h: H.Heap, p: nat, k: nat, i: nat)
    requires H.Sound(h) && k < H.CLASSES && p in h.arenas && h.arenas[p] == H.Small(k, H.TotalBlock(k)) && i < H.TotalBlock(k)
    ensures H.Block(p, k, i) in h.lists[k]
  {
    H.FullSet(H.FreeIn(h, p), H.TotalBlock(k), i);
    assert H.IsFree(h, p, i);
  }

  lemma PageBlocks(h: H.Heap, p: nat, k: nat)
    requires H.Sound(h) && k < H.CLASSES
    ensures forall x :: x in h.lists[k] && H.ArenaOf(x) == p ==> exists i: nat :: i < H.TotalBlock(k) && x == H.Block(p, k, i)
  {
    forall x | x in h.lists[k] && H.ArenaOf(x) == p
      ensures exists i: nat :: i < H.TotalBlock(k) && x == H.Block(p, k, i)
    {
      assert H.IsBlock(h, x, k);
    }
  }

  lemma {:induction false} MinusNone(l: seq<nat>, p: nat, k: nat)
    requires k < H.CLASSES
    ensures Minus(l, p, k, 0) == l
  {
    if l != [] {
      MinusNone(l[1..], p, k);
    }
  }

  lemma {:induction false} MinusNext(l: seq<nat>, p: nat, k: nat, n: nat)
    requires k < H.CLASSES && n < H.TotalBlock(k)
    requires forall i, j :: 0 <= i < j < |l| ==> l[i] != l[j]
    requires H.Block(p, k, n) in l
    ensures H.Block(p, k, n) in Minus(l, p, k, n)
    ensures Removed(Minus(l, p, k, n), H.Block(p, k, n)) == Minus(l, p, k, n + 1)
  {
    BlockOnce(p, k, n);
    BelowNext(l[0], p, k, n);
    hide BlockBelow, H.Block;
    var x := H.Block(p, k, n);
    if l[0] == x {
      assert x !in l[1..];
      MinusSame(l[1..], p, k, n);
    } else {
      MinusNext(l[1..], p, k, n);
    }
  }

  lemma BlockOnce(p: nat, k: nat, n: nat)
    requires k < H.CLASSES
    ensures !BlockBelow(H.Block(p, k, n), p, k, n)
  {
    forall i: nat | i < n ensures H.Block(p, k, i) != H.Block(p, k, n) {
      H.BlocksApart(p, k, i, n);
    }
  }

  lemma BelowNext(x: nat, p: nat, k: nat, n: nat)
    requires k < H.CLASSES
    ensures BlockBelow(x, p, k, n + 1) <==> BlockBelow(x, p, k, n) || x == H.Block(p, k, n)
  {
    hide H.Block;
    if x == H.Block(p, k, n) {
      assert n < n + 1 && x == H.Block(p, k, n);
    }
  }

  lemma {:induction false} MinusSame(l: seq<nat>, p: nat, k: nat, n: nat)
    requires k < H.CLASSES && H.Block(p, k, n) !in l
    ensures Minus(l, p, k, n + 1) == Minus(l, p, k, n)
  {
    if l != [] {
      MinusSame(l[1..], p, k, n);
    }
  }

  lemma {:induction false} MinusAll(l: seq<nat>, p: nat, k: nat)
    requires k < H.CLASSES
    requires forall x :: x in l && H.ArenaOf(x) == p ==> exists i: nat :: i < H.TotalBlock(k) && x == H.Block(p, k, i)
    ensures Minus(l, p, k, H.TotalBlock(k)) == H.Without(l, p)
  {
    if l != [] {
      MinusAll(l[1..], p, k);
      forall i: nat | i < H.TotalBlock(k) ensures H.ArenaOf(H.Block(p, k, i)) == p {
        H.BlockInPage(p, k, i);
      }
    }
  }
}
