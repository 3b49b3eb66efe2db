/**
 The kernel heap: kmalloc and kfree of src/kernel/arena.cpp over the page allocator
 allocKpage / freeKpage of src/kernel/memory.cpp.  Addresses are plain numbers, and
 the set of live blocks is read off the state: what an arena holds that is not on
 the free list of its class.
 */
module Heap {
  import opened Outcome
  import opened Bitmap
  import opened Words

  const PAGE := 4096
  const HEADER := 16                 // sizeof(arena_t)
  const CLASSES := 7                 // DESC_COUNT
  const KPAGES := 2816               // bits of kernelMap: pages of 1M..12M
  const KBASE := 256                 // its offset, MEMORY_BASE / PAGE_SIZE

  // desc->blockSize and desc->totalBlock as arenaInit sets them.
  function BlockSize(k: nat): nat
    requires k < CLASSES
  {
    match k
    case 0 => 16
    case 1 => 32
    case 2 => 64
    case 3 => 128
    case 4 => 256
    case 5 => 512
    case 6 => 1024
  }

  function TotalBlock(k: nat): nat
    requires k < CLASSES
  {
    (PAGE - HEADER) / BlockSize(k)
  }

  datatype Arena = Small(desc: nat, count: nat) | Large(pages: nat)

  datatype Heap = Heap(kmap: seq<bool>, arenas: map<nat, Arena>, lists: seq<seq<nat>>)

  // ---------- kernel pages ----------

  function AllocKpage(kmap: seq<bool>, count: nat): (r: Result<(seq<bool>, nat)>) {
    if count == 0 then Halt(AssertFailed)
    else
      var s := FirstFit(kmap, count, 0);
      if s == -1 then Halt(OutOfMemory) else Ok((Fill(kmap, s, count, true), KBASE + s))
  }

  function FreeKpage(kmap: seq<bool>, page: nat, count: nat): Result<seq<bool>> {
    var s := page - KBASE;
    if count == 0 || s < 0 || s + count > |kmap| || !(forall k :: s <= k < s + count ==> kmap[k])
    then Halt(AssertFailed)
    else Ok(Fill(kmap, s, count, false))
  }

  // ---------- blocks ----------

  // getArenaBlock
  function Block(p: nat, k: nat, i: nat): nat
    requires k < CLASSES
  {
    p * PAGE + HEADER + i * BlockSize(k)
  }

  // getBlockArena: the address masked with 0xfffff000, as a page number
  function ArenaOf(addr: nat): nat {
    addr / PAGE
  }

  // The free list after blocks 0..n of a new arena were pushed one after the other.
  function PushAll(p: nat, k: nat, n: nat): (l: seq<nat>)
    requires k < CLASSES
    ensures |l| == n && forall j :: 0 <= j < n ==> l[j] == Block(p, k, n - 1 - j)
  {
    if n == 0 then [] else [Block(p, k, n - 1)] + PushAll(p, k, n - 1)
  }

  // The list without the blocks of page p.
  function Without(l: seq<nat>, p: nat): (r: seq<nat>)
    ensures forall a :: a in r <==> a in l && ArenaOf(a) != p
  {
    if l == [] then [] else if ArenaOf(l[0]) == p then Without(l[1..], p) else [l[0]] + Without(l[1..], p)
  }

  // The first class whose blocks are large enough.
  function ClassFor(size: nat): (k: nat)
    requires size <= 1024
    ensures k < CLASSES && size <= BlockSize(k) && forall j :: 0 <= j < k ==> BlockSize(j) < size
  {
    if size <= 16 then 0 else if size <= 32 then 1 else if size <= 64 then 2 else if size <= 128 then 3
    else if size <= 256 then 4 else if size <= 512 then 5 else 6
  }

  // Pages of a large block: the sums are uint32, `size` is a 64 bit number.
  function LargePages(size: nat): nat {
    ((size + HEADER) % TWO32 + PAGE - 1) % TWO32 / PAGE
  }

  // ---------- kmalloc and kfree ----------

  function NewArena(h: Heap, k: nat): Result<Heap>
    requires k < CLASSES == |h.lists|
  {
    var (kmap, p) :- AllocKpage(h.kmap, 1);
    Ok(Heap(kmap, h.arenas[p := Small(k, TotalBlock(k))], h.lists[k := PushAll(p, k, TotalBlock(k))]))
  }

  function Kmalloc(h: Heap, size: nat): Result<(Heap, nat)>
    requires |h.lists| == CLASSES
  {
    if size > 1024 then
      var (kmap, p) :- AllocKpage(h.kmap, LargePages(size));
      Ok((h.(kmap := kmap, arenas := h.arenas[p := Large(LargePages(size))]), p * PAGE + HEADER))
    else
      var k := ClassFor(size);
      var h1 :- if h.lists[k] == [] then NewArena(h, k) else Ok(h);
      if |h1.lists| != CLASSES || h1.lists[k] == [] then Halt(AssertFailed)
      else
        var a := h1.lists[k][0];
        var p := ArenaOf(a);
        if p !in h1.arenas || h1.arenas[p].Large? || h1.arenas[p].count == 0 then Halt(AssertFailed)
        else
          var arena := h1.arenas[p].(count := h1.arenas[p].count - 1);
          Ok((h1.(arenas := h1.arenas[p := arena], lists := h1.lists[k := h1.lists[k][1..]]), a))
  }

  function Kfree(h: Heap, a: nat): Result<Heap>
    requires |h.lists| == CLASSES
  {
    var p := ArenaOf(a);
    if a == 0 || p !in h.arenas then Halt(AssertFailed)
    else
      match h.arenas[p]
      case Large(n) =>
        var kmap :- FreeKpage(h.kmap, p, n);
        Ok(h.(kmap := kmap, arenas := h.arenas - {p}))
      case Small(k, count) =>
        if k >= CLASSES then Halt(Undefined)
        else if a in h.lists[k] then Halt(AssertFailed)
        else if count + 1 == TotalBlock(k) then
          var kmap :- FreeKpage(h.kmap, p, 1);
          Ok(Heap(kmap, h.arenas - {p}, h.lists[k := Without([a] + h.lists[k], p)]))
        else Ok(h.(arenas := h.arenas[p := Small(k, count + 1)], lists := h.lists[k := [a] + h.lists[k]]))
  }

  // ---------- the invariant ----------

  function PagesOf(a: Arena): nat {
    match a
    case Small(_, _) => 1
    case Large(n) => n
  }

  // Block i of the small arena in page p is free.
  ghost predicate IsFree(h: Heap, p: nat, i: nat) {
    p in h.arenas && h.arenas[p].Small? && h.arenas[p].desc < CLASSES == |h.lists|
    && i < TotalBlock(h.arenas[p].desc) && Block(p, h.arenas[p].desc, i) in h.lists[h.arenas[p].desc]
  }

  ghost function FreeIn(h: Heap, p: nat): (s: set<nat>)
    ensures forall i :: i in s <==> IsFree(h, p, i)
  {
    set i: nat | i < 256 && IsFree(h, p, i)
  }

  // Every arena owns its pages, and no two arenas own the same page.
  ghost predicate PagesOwned(h: Heap) {
    && |h.kmap| == KPAGES
    && (forall p :: p in h.arenas ==>
          && PagesOf(h.arenas[p]) > 0 && KBASE <= p && p + PagesOf(h.arenas[p]) <= KBASE + KPAGES
          && forall s :: p - KBASE <= s < p - KBASE + PagesOf(h.arenas[p]) ==> h.kmap[s])
    && (forall p, q :: p in h.arenas && q in h.arenas && p < q ==> p + PagesOf(h.arenas[p]) <= q)
  }

  // A free list holds blocks of arenas of its class, each once.
  ghost predicate ListsSound(h: Heap) {
    && |h.lists| == CLASSES
    && (forall k, i, j :: 0 <= k < CLASSES && 0 <= i < j < |h.lists[k]| ==> h.lists[k][i] != h.lists[k][j])
    && (forall k, a :: 0 <= k < CLASSES && a in h.lists[k] ==> IsBlock(h, a, k))
  }

  // a is a block of a small arena of class k.
  ghost predicate IsBlock(h: Heap, a: nat, k: nat)
  {
    var p := ArenaOf(a);
    k < CLASSES && p in h.arenas && h.arenas[p].Small? && h.arenas[p].desc == k
    && exists i: nat :: i < TotalBlock(k) && a == Block(p, k, i)
  }

  // The counter of a small arena is the number of its blocks on the free list.
  ghost predicate CountsMatch(h: Heap) {
    forall p :: p in h.arenas && h.arenas[p].Small? ==>
      h.arenas[p].desc < CLASSES && h.arenas[p].count == |FreeIn(h, p)|
  }

  // No page stays allocated with all its blocks free.
  ghost predicate NoneIdle(h: Heap) {
    forall p :: p in h.arenas && h.arenas[p].Small? ==>
      h.arenas[p].desc < CLASSES && h.arenas[p].count < TotalBlock(h.arenas[p].desc)
  }

  ghost predicate Sound(h: Heap) {
    PagesOwned(h) && ListsSound(h) && CountsMatch(h)
  }

  ghost predicate Inv(h: Heap) {
    Sound(h) && NoneIdle(h)
  }

  // What kmalloc has handed out and kfree has not taken back.
  ghost predicate Live(h: Heap, a: nat) {
    var p := ArenaOf(a);
    p in h.arenas &&
    match h.arenas[p]
    case Large(_) => a == p * PAGE + HEADER
    case Small(k, _) => IsBlock(h, a, k) && |h.lists| == CLASSES && a !in h.lists[k]
  }

  // How many bytes the block at a has.
  function Capacity(h: Heap, a: nat): int {
    var p := ArenaOf(a);
    if p !in h.arenas then 0
    else match h.arenas[p]
         case Large(n) => n * PAGE - HEADER
         case Small(k, _) => if k < CLASSES then BlockSize(k) else 0
  }

  // ---------- geometry of a page ----------

  lemma BlockInPage(p: nat, k: nat, i: nat)
    requires k < CLASSES && i < TotalBlock(k)
    ensures ArenaOf(Block(p, k, i)) == p && TotalBlock(k) < 256
    ensures p * PAGE + HEADER <= Block(p, k, i) && Block(p, k, i) + BlockSize(k) <= p * PAGE + PAGE
  {
    match k
    case 0 => case 1 => case 2 => case 3 => case 4 => case 5 => case 6 =>
  }

  lemma BlocksApart(p: nat, k: nat, i: nat, j: nat)
    requires k < CLASSES && i < j
    ensures Block(p, k, i) + BlockSize(k) <= Block(p, k, j)
  {
    match k
    case 0 => case 1 => case 2 => case 3 => case 4 => case 5 => case 6 =>
  }

  // ---------- live blocks do not overlap ----------

  lemma LiveInside(h: Heap, a: nat)
    requires Sound(h) && Live(h, a)
    ensures var p := ArenaOf(a);
      && p * PAGE + HEADER <= a && a + Capacity(h, a) <= (p + PagesOf(h.arenas[p])) * PAGE
      && a != 0 && Capacity(h, a) > 0
  {
    var p := ArenaOf(a);
    match h.arenas[p]
    case Large(_) =>
    case Small(k, _) =>
      var i: nat :| i < TotalBlock(k) && a == Block(p, k, i);
      BlockInPage(p, k, i);
  }

  // Two live blocks share no byte, and no live block reaches into an arena header.
  lemma LiveBlocksDisjoint(h: Heap, a: nat, b: nat)
    requires Inv(h) && Live(h, a) && Live(h, b) && a < b
    ensures a + Capacity(h, a) <= b
    ensures forall p :: p in h.arenas ==> a + Capacity(h, a) <= p * PAGE || p * PAGE + HEADER <= a
  {
    LiveInside(h, a);
    LiveInside(h, b);
    var p, q := ArenaOf(a), ArenaOf(b);
    if p == q {
      var k := h.arenas[p].desc;
      var i: nat :| i < TotalBlock(k) && a == Block(p, k, i);
      var j: nat :| j < TotalBlock(k) && b == Block(p, k, j);
      if j < i {
        BlocksApart(p, k, j, i);
      }
      BlocksApart(p, k, i, j);
    }
  }

  // ---------- taking a block off a free list ----------

  // The head of list k leaves it, and its arena counts one less.
  ghost predicate Popped(h: Heap, k: nat, n: Heap) {
    && |h.lists| == CLASSES && k < CLASSES && h.lists[k] != []
    && var p := ArenaOf(h.lists[k][0]);
    && p in h.arenas && h.arenas[p].Small? && h.arenas[p].count > 0
    && n == h.(arenas := h.arenas[p := h.arenas[p].(count := h.arenas[p].count - 1)], lists := h.lists[k := h.lists[k][1..]])
  }

  // The block becomes live.
  lemma PopKeeps(h: Heap, k: nat, n: Heap)
    requires Sound(h) && Popped(h, k, n)
    ensures Sound(n)
    ensures forall x :: Live(n, x) <==> Live(h, x) || x == h.lists[k][0]
    ensures !Live(h, h.lists[k][0])
    ensures forall x :: Capacity(n, x) == Capacity(h, x)
    ensures Capacity(n, h.lists[k][0]) == BlockSize(k)
  {
    var a := h.lists[k][0];
    var p := ArenaOf(a);
    assert IsBlock(h, a, k);
    PopCounts(h, k, n);
    PopLists(h, k, n);
    PopLive(h, k, n);
    hide CountsMatch, ListsSound, Live, IsBlock;
    assert PagesOwned(n);
  }

  lemma PopBlocks(h: Heap, k: nat, n: Heap)
    requires Popped(h, k, n)
    ensures forall x, j :: IsBlock(n, x, j) <==> IsBlock(h, x, j)
    ensures h.lists[k] == [h.lists[k][0]] + n.lists[k]
  {
  }

  lemma PopLists(h: Heap, k: nat, n: Heap)
    requires ListsSound(h) && Popped(h, k, n)
    ensures ListsSound(n)
  {
    PopBlocks(h, k, n);
    hide IsBlock;
  }

  lemma PopLive(h: Heap, k: nat, n: Heap)
    requires Sound(h) && Popped(h, k, n)
    ensures forall x :: Live(n, x) <==> Live(h, x) || x == h.lists[k][0]
    ensures !Live(h, h.lists[k][0])
  {
    var a := h.lists[k][0];
    PopBlocks(h, k, n);
    assert IsBlock(h, a, k);
    forall x ensures x in n.lists[k] <==> x in h.lists[k] && x != a {
    }
    hide IsBlock, CountsMatch, PagesOwned, ListsSound;
  }

  lemma PopCounts(h: Heap, k: nat, n: Heap)
    requires Sound(h) && Popped(h, k, n)
    ensures CountsMatch(n)
  {
    var a := h.lists[k][0];
    var p := ArenaOf(a);
    assert IsBlock(h, a, k);
    var i: nat :| i < TotalBlock(k) && a == Block(p, k, i);
    forall q | q in n.arenas && n.arenas[q].Small?
      ensures n.arenas[q].desc < CLASSES && n.arenas[q].count == |FreeIn(n, q)|
    {
      forall j: nat ensures IsFree(n, q, j) <==> IsFree(h, q, j) && !(q == p && j == i) {
        PopFree(h, k, n, i, q, j);
      }
      PopFreeIn(h, k, n, i, q);
    }
  }

  lemma PopFree(h: Heap, k: nat, n: Heap, i: nat, q: nat, j: nat)
    requires Sound(h) && Popped(h, k, n) && h.lists[k][0] == Block(ArenaOf(h.lists[k][0]), k, i) && i < TotalBlock(k)
    requires IsBlock(h, h.lists[k][0], k)
    ensures IsFree(n, q, j) <==> IsFree(h, q, j) && !(q == ArenaOf(h.lists[k][0]) && j == i)
  {
    var p := ArenaOf(h.lists[k][0]);
    PopBlocks(h, k, n);
    if IsFree(h, q, j) && q == p && j != i {
      BlocksApart(p, k, if i < j then i else j, if i < j then j else i);
    } else if IsFree(h, q, j) && q != p {
      BlockInPage(q, h.arenas[q].desc, j);
    }
  }

  lemma PopFreeIn(h: Heap, k: nat, n: Heap, i: nat, q: nat)
    requires Sound(h) && Popped(h, k, n) && h.lists[k][0] == Block(ArenaOf(h.lists[k][0]), k, i) && i < TotalBlock(k)
    requires IsBlock(h, h.lists[k][0], k) && q in n.arenas && n.arenas[q].Small?
    requires forall j: nat :: IsFree(n, q, j) <==> IsFree(h, q, j) && !(q == ArenaOf(h.lists[k][0]) && j == i)
    ensures n.arenas[q].desc < CLASSES && n.arenas[q].count == |FreeIn(n, q)|
  {
    if q == ArenaOf(h.lists[k][0]) {
      assert IsFree(h, q, i);
      assert FreeIn(h, q) == FreeIn(n, q) + {i};
    } else {
      assert FreeIn(h, q) == FreeIn(n, q);
    }
  }

  // ---------- kernel pages ----------

  // Pages handed out were free, so they belong to no arena.
  lemma FreshPages(h: Heap, n: nat)
    requires PagesOwned(h) && AllocKpage(h.kmap, n).Ok?
    ensures var (kmap, p) := AllocKpage(h.kmap, n).value;
      && KBASE <= p && p + n <= KBASE + KPAGES && n > 0
      && (forall q :: q in h.arenas ==> p + n <= q || q + PagesOf(h.arenas[q]) <= p)
      && FreeKpage(kmap, p, n) == Ok(h.kmap)
  {
    var (kmap, p) := AllocKpage(h.kmap, n).value;
    var s := p - KBASE;
    assert IsClear(h.kmap, s, n);
    ResetUndoesScan(h.kmap, n);
    forall q | q in h.arenas ensures p + n <= q || q + PagesOf(h.arenas[q]) <= p {
      var m := PagesOf(h.arenas[q]);
      var x := (if p <= q then q else p) - KBASE;
      assert q - KBASE <= x < q - KBASE + m ==> h.kmap[x];
      assert s <= x < s + n ==> !h.kmap[x];
    }
  }

  // A new arena over fresh pages leaves the others alone.
  lemma ArenaAdded(h: Heap, n: nat, arena: Arena, h': Heap)
    requires PagesOwned(h) && AllocKpage(h.kmap, n).Ok? && PagesOf(arena) == n
    requires var (kmap, p) := AllocKpage(h.kmap, n).value; h'.kmap == kmap && h'.arenas == h.arenas[p := arena]
    ensures PagesOwned(h') && AllocKpage(h.kmap, n).value.1 !in h.arenas
  {
    FreshPages(h, n);
    var (kmap, p) := AllocKpage(h.kmap, n).value;
    forall q | q in h'.arenas ensures forall s :: q - KBASE <= s < q - KBASE + PagesOf(h'.arenas[q]) ==> h'.kmap[s] {
      if q != p {
        forall s | q - KBASE <= s < q - KBASE + PagesOf(h.arenas[q]) ensures h'.kmap[s] {
          assert h.kmap[s];
        }
      }
    }
  }

  // ---------- kmalloc ----------

  lemma NewArenaKeeps(h: Heap, k: nat)
    requires Sound(h) && k < CLASSES && h.lists[k] == [] && NewArena(h, k).Ok?
    ensures var n := NewArena(h, k).value;
      && Sound(n) && n.lists[k] != []
      && (forall x :: Live(n, x) <==> Live(h, x))
      && (forall x :: Live(h, x) ==> Capacity(n, x) == Capacity(h, x))
      && var p := ArenaOf(n.lists[k][0]);
         p !in h.arenas && n.arenas == h.arenas[p := Small(k, TotalBlock(k))]
  {
    var (kmap, p) := AllocKpage(h.kmap, 1).value;
    var n := NewArena(h, k).value;
    ArenaAdded(h, 1, Small(k, TotalBlock(k)), n);
    BlockInPage(p, k, TotalBlock(k) - 1);
    NewLists(h, n, k, p);
    NewCounts(h, n, k, p);
    forall x ensures Live(n, x) <==> Live(h, x) {
      NewLive(h, n, k, p, x);
    }
  }

  lemma PushAllPage(p: nat, k: nat)
    requires k < CLASSES
    ensures forall x :: x in PushAll(p, k, TotalBlock(k)) ==> ArenaOf(x) == p
  {
    forall j | 0 <= j < TotalBlock(k) ensures ArenaOf(PushAll(p, k, TotalBlock(k))[j]) == p {
      BlockInPage(p, k, TotalBlock(k) - 1 - j);
    }
  }

  lemma NewLists(h: Heap, n: Heap, k: nat, p: nat)
    requires ListsSound(h) && k < CLASSES && h.lists[k] == [] && p !in h.arenas
    requires n.arenas == h.arenas[p := Small(k, TotalBlock(k))] && n.lists == h.lists[k := PushAll(p, k, TotalBlock(k))]
    ensures ListsSound(n)
  {
    forall j, a | 0 <= j < CLASSES && a in n.lists[j] ensures IsBlock(n, a, j) {
      if j == k {
        var x :| 0 <= x < TotalBlock(k) && a == Block(p, k, TotalBlock(k) - 1 - x);
        BlockInPage(p, k, TotalBlock(k) - 1 - x);
      } else {
        assert IsBlock(h, a, j);
      }
    }
    forall i, j | 0 <= i < j < TotalBlock(k) ensures n.lists[k][i] != n.lists[k][j] {
      BlocksApart(p, k, TotalBlock(k) - 1 - j, TotalBlock(k) - 1 - i);
    }
  }

  lemma NewCounts(h: Heap, n: Heap, k: nat, p: nat)
    requires Sound(h) && k < CLASSES && h.lists[k] == [] && p !in h.arenas
    requires n.arenas == h.arenas[p := Small(k, TotalBlock(k))] && n.lists == h.lists[k := PushAll(p, k, TotalBlock(k))]
    ensures CountsMatch(n)
  {
    forall q | q in n.arenas && n.arenas[q].Small?
      ensures n.arenas[q].desc < CLASSES && n.arenas[q].count == |FreeIn(n, q)|
    {
      if q == p {
        forall i: nat | i < TotalBlock(k) ensures IsFree(n, p, i) {
          assert n.lists[k][TotalBlock(k) - 1 - i] == Block(p, k, i);
        }
        IntervalSize(FreeIn(n, p), TotalBlock(k));
      } else {
        forall i: nat ensures IsFree(n, q, i) <==> IsFree(h, q, i) {
          if i < TotalBlock(h.arenas[q].desc) {
            BlockInPage(q, h.arenas[q].desc, i);
          }
          PushAllPage(p, k);
        }
        assert FreeIn(n, q) == FreeIn(h, q);
      }
    }
  }

  lemma {:induction false} IntervalSize(s: set<nat>, n: nat)
    requires forall i: nat :: i in s <==> i < n
    ensures |s| == n
  {
    if n == 0 {
      assert s == {};
    } else {
      IntervalSize(s - {n - 1}, n - 1);
    }
  }

  lemma NewLive(h: Heap, n: Heap, k: nat, p: nat, x: nat)
    requires Sound(h) && k < CLASSES && h.lists[k] == [] && p !in h.arenas
    requires n.arenas == h.arenas[p := Small(k, TotalBlock(k))] && n.lists == h.lists[k := PushAll(p, k, TotalBlock(k))]
    ensures Live(n, x) <==> Live(h, x)
  {
    if ArenaOf(x) == p {
      if IsBlock(n, x, k) {
        var i: nat :| i < TotalBlock(k) && x == Block(p, k, i);
        assert n.lists[k][TotalBlock(k) - 1 - i] == x;
      }
    } else {
      forall j ensures IsBlock(n, x, j) <==> IsBlock(h, x, j) {
      }
      PushAllPage(p, k);
    }
  }

  // kmalloc hands out a block that was not live and does not disturb the others; it
  // fails only for want of pages, or when the page count of a huge request wraps
  // around to zero.
  lemma KmallocKeeps(h: Heap, size: nat)
    requires Inv(h)
    ensures var r := Kmalloc(h, size);
      && (r.Halt? ==> r.why == OutOfMemory || (size > 1024 && LargePages(size) == 0))
      && (r.Ok? ==> var (n, a) := r.value;
            && Inv(n) && !Live(h, a) && (forall x :: Live(n, x) <==> Live(h, x) || x == a)
            && (forall x :: Live(h, x) ==> Capacity(n, x) == Capacity(h, x))
            && Capacity(n, a) == if size > 1024 then LargePages(size) * PAGE - HEADER else BlockSize(ClassFor(size)))
  {
    if size > 1024 {
      if Kmalloc(h, size).Ok? {
        LargeKeeps(h, size);
      }
      hide Inv, Live, Capacity;
    } else {
      SmallKeeps(h, size);
      hide Inv, Live, Capacity, Kmalloc;
    }
  }

  lemma SmallKeeps(h: Heap, size: nat)
    requires Inv(h) && size <= 1024
    ensures var r := Kmalloc(h, size);
      && (r.Halt? ==> r.why == OutOfMemory)
      && (r.Ok? ==> var (n, a) := r.value;
            && Inv(n) && !Live(h, a) && (forall x :: Live(n, x) <==> Live(h, x) || x == a)
            && (forall x :: Live(h, x) ==> Capacity(n, x) == Capacity(h, x))
            && Capacity(n, a) == BlockSize(ClassFor(size)))
  {
    var k := ClassFor(size);
    assert |h.lists| == CLASSES;
    if h.lists[k] == [] {
      SmallFromPage(h, size);
    } else {
      SmallFromList(h, size);
    }
    hide Sound, Live, Capacity, Kmalloc;
  }

  lemma SmallFromList(h: Heap, size: nat)
    requires Inv(h) && size <= 1024 && h.lists[ClassFor(size)] != []
    ensures Kmalloc(h, size).Ok?
    ensures var (n, a) := Kmalloc(h, size).value;
      && Inv(n) && !Live(h, a) && (forall x :: Live(n, x) <==> Live(h, x) || x == a)
      && (forall x :: Live(h, x) ==> Capacity(n, x) == Capacity(h, x))
      && Capacity(n, a) == BlockSize(ClassFor(size))
  {
    var k := ClassFor(size);
    HeadArena(h, k);
    assert |h.lists| == CLASSES;
    hide Sound, Live, Capacity, BlockSize, NewArena;
    PopKeeps(h, k, Kmalloc(h, size).value.0);
  }

  lemma SmallFromPage(h: Heap, size: nat)
    requires Inv(h) && size <= 1024 && h.lists[ClassFor(size)] == []
    ensures var r := Kmalloc(h, size);
      && (r.Halt? ==> r.why == OutOfMemory)
      && (r.Ok? ==> var (n, a) := r.value;
            && Inv(n) && !Live(h, a) && (forall x :: Live(n, x) <==> Live(h, x) || x == a)
            && (forall x :: Live(h, x) ==> Capacity(n, x) == Capacity(h, x))
            && Capacity(n, a) == BlockSize(ClassFor(size)))
  {
    hide *;
    var k := ClassFor(size);
    SevenLists(h);
    if NewArena(h, k).Ok? {
      var h1 := NewArena(h, k).value;
      NewArenaKeeps(h, k);
      HeadArena(h1, k);
      SoundLists(h1);
      FromPage(h, size);
      PopKeeps(h1, k, Kmalloc(h, size).value.0);
      NotIdle(h, h1, k, Kmalloc(h, size).value.0);
    } else {
      NoPage(h, size);
    }
  }

  lemma SoundLists(h: Heap)
    requires Sound(h)
    ensures |h.lists| == CLASSES
  {
    hide PagesOwned, CountsMatch;
  }

  lemma SevenLists(h: Heap)
    requires Inv(h)
    ensures Sound(h) && |h.lists| == CLASSES && forall size: nat :: size <= 1024 ==> ClassFor(size) < CLASSES
  {
    SoundLists(h);
  }

  // kmalloc when the class list is empty.
  lemma FromPage(h: Heap, size: nat)
    requires |h.lists| == CLASSES && size <= 1024 && h.lists[ClassFor(size)] == [] && NewArena(h, ClassFor(size)).Ok?
    requires var k, h1 := ClassFor(size), NewArena(h, ClassFor(size)).value;
      && |h1.lists| == CLASSES && h1.lists[k] != []
      && var p := ArenaOf(h1.lists[k][0]); p in h1.arenas && h1.arenas[p].Small? && h1.arenas[p].count > 0
    ensures Kmalloc(h, size).Ok?
    ensures var k, h1, (n, a) := ClassFor(size), NewArena(h, ClassFor(size)).value, Kmalloc(h, size).value;
      Popped(h1, k, n) && a == h1.lists[k][0]
  {
    hide ClassFor, NewArena, ArenaOf;
  }

  lemma NoPage(h: Heap, size: nat)
    requires |h.lists| == CLASSES && size <= 1024 && h.lists[ClassFor(size)] == [] && NewArena(h, ClassFor(size)).Halt?
    ensures Kmalloc(h, size) == Halt(OutOfMemory)
  {
    hide ClassFor, FirstFit;
  }

  // The new arena has already lost a block.
  lemma NotIdle(h: Heap, h1: Heap, k: nat, n: Heap)
    requires Inv(h) && Popped(h1, k, n) && Sound(n)
    requires h1.arenas == h.arenas[ArenaOf(h1.lists[k][0]) := Small(k, TotalBlock(k))]
    ensures Inv(n)
  {
    hide Sound, TotalBlock, ArenaOf;
  }

  lemma HeadArena(h: Heap, k: nat)
    requires Sound(h) && k < CLASSES && h.lists[k] != []
    ensures var p := ArenaOf(h.lists[k][0]);
      p in h.arenas && h.arenas[p].Small? && h.arenas[p].desc == k && h.arenas[p].count > 0
  {
    var a := h.lists[k][0];
    assert IsBlock(h, a, k);
    var p := ArenaOf(a);
    var i: nat :| i < TotalBlock(k) && a == Block(p, k, i);
    assert i in FreeIn(h, p);
  }

  lemma LargeKeeps(h: Heap, size: nat)
    requires Inv(h) && size > 1024 && Kmalloc(h, size).Ok?
    ensures var (n, a) := Kmalloc(h, size).value;
      && Inv(n) && !Live(h, a) && (forall x :: Live(n, x) <==> Live(h, x) || x == a)
      && (forall x :: Live(h, x) ==> Capacity(n, x) == Capacity(h, x))
      && Capacity(n, a) == LargePages(size) * PAGE - HEADER
  {
    var (n, a) := Kmalloc(h, size).value;
    var (kmap, p) := AllocKpage(h.kmap, LargePages(size)).value;
    ArenaAdded(h, LargePages(size), Large(LargePages(size)), n);
    assert ArenaOf(a) == p;
    forall x, j ensures IsBlock(n, x, j) <==> IsBlock(h, x, j) {
    }
    forall q, i ensures IsFree(n, q, i) <==> IsFree(h, q, i) {
    }
    forall q ensures FreeIn(n, q) == FreeIn(h, q) {
    }
    hide PagesOwned, IsBlock;
  }

  // The block is as large as requested exactly when the page count did not wrap, and then
  // a page less would not do.
  lemma LargeEnough(size: nat)
    requires size > 1024
    ensures LargePages(size) * PAGE - HEADER >= size <==> size + HEADER + PAGE - 1 < TWO32
    ensures size + HEADER + PAGE - 1 < TWO32 ==> (LargePages(size) - 1) * PAGE - HEADER < size
  {
  }

  // The pages from s on, n of them, are free.
  ghost predicate FreeRun(h: Heap, s: nat, n: nat) {
    s + n <= |h.kmap| && forall k :: s <= k < s + n ==> !h.kmap[k]
  }

  // allocKpage is out of memory exactly if nowhere so many pages in a row are free, and
  // otherwise takes the first place where they are.
  lemma AllocKpageExactly(h: Heap, count: nat)
    requires count > 0
    ensures AllocKpage(h.kmap, count).Halt? <==> forall s: nat :: !FreeRun(h, s, count)
    ensures AllocKpage(h.kmap, count).Ok? ==> var (kmap, p) := AllocKpage(h.kmap, count).value;
      && p >= KBASE && FreeRun(h, p - KBASE, count) && (forall s: nat :: FreeRun(h, s, count) ==> s + KBASE >= p)
      && |kmap| == |h.kmap| && forall k :: 0 <= k < |kmap| ==> kmap[k] == (h.kmap[k] || p - KBASE <= k < p - KBASE + count)
  {
    forall s: nat ensures FreeRun(h, s, count) <==> IsClear(h.kmap, s, count) {
    }
    var r := FirstFit(h.kmap, count, 0);
    assert IsFirstFit(h.kmap, count, r);
    hide FirstFit, IsClear;
    if r == -1 {
      forall s: nat ensures !FreeRun(h, s, count) {
        assert FreeRun(h, s, count) ==> s < |h.kmap|;
      }
    }
  }

  // When kmalloc stops the kernel: a large request for want of pages in a row, or because
  // its page count has wrapped to zero; a small one exactly if its class has no free
  // block and no page is free.
  lemma KmallocHalts(h: Heap, size: nat)
    requires Inv(h)
    ensures |h.lists| == CLASSES
    ensures Kmalloc(h, size).Halt? <==>
      if size > 1024 then LargePages(size) == 0 || forall s: nat :: !FreeRun(h, s, LargePages(size))
      else h.lists[ClassFor(size)] == [] && forall s: nat :: !FreeRun(h, s, 1)
  {
    SoundLists(h);
    SevenLists(h);
    hide Inv, AllocKpage, FreeRun, LargePages;
    if size > 1024 {
      if LargePages(size) > 0 {
        AllocKpageExactly(h, LargePages(size));
      } else {
        NothingIsRefused(h.kmap);
      }
    } else {
      AllocKpageExactly(h, 1);
      if h.lists[ClassFor(size)] != [] {
        SmallFromList(h, size);
      } else if AllocKpage(h.kmap, 1).Halt? {
        NoPage(h, size);
      } else {
        SmallFromPage(h, size);
        FromPage(h, size);
      }
    }
  }

  lemma NothingIsRefused(kmap: seq<bool>)
    ensures AllocKpage(kmap, 0).Halt?
  {
  }

  // Each class has blocks of twice the size of the one before, the largest as large as the
  // largest small request, and a page of it is full: one block more would not fit.
  lemma ArenaFilled(k: nat)
    requires k < CLASSES
    ensures BlockSize(0) == 16 && BlockSize(CLASSES - 1) == 1024 && (k + 1 < CLASSES ==> BlockSize(k + 1) == 2 * BlockSize(k))
    ensures Block(0, k, TotalBlock(k) - 1) + BlockSize(k) <= PAGE < Block(0, k, TotalBlock(k)) + BlockSize(k)
  {
    assert k in {0, 1, 2, 3, 4, 5, 6};
  }

  // A request of 4 GB is granted, with a block of 4080 bytes.
  lemma HugeRequestWraps()
    ensures LargePages(TWO32 - 1) == 1
  {
  }

  // ---------- kfree ----------

  // kfree's state before it asks whether the page can go: block a pushed, counted.
  function Pushed(h: Heap, a: nat): Heap
    requires |h.lists| == CLASSES && ArenaOf(a) in h.arenas && h.arenas[ArenaOf(a)].Small?
    requires h.arenas[ArenaOf(a)].desc < CLASSES
  {
    var p := ArenaOf(a);
    var k := h.arenas[p].desc;
    h.(arenas := h.arenas[p := Small(k, h.arenas[p].count + 1)], lists := h.lists[k := [a] + h.lists[k]])
  }

  lemma PushKeeps(h: Heap, a: nat)
    requires Sound(h) && Live(h, a) && h.arenas[ArenaOf(a)].Small?
    ensures Sound(Pushed(h, a))
    ensures forall x :: Live(Pushed(h, a), x) <==> Live(h, x) && x != a
  {
    var p := ArenaOf(a);
    var k := h.arenas[p].desc;
    var n := Pushed(h, a);
    forall x, j ensures IsBlock(n, x, j) <==> IsBlock(h, x, j) {
    }
    PushCounts(h, a);
    hide CountsMatch, PagesOwned;
    assert ListsSound(n);
  }

  lemma PushCounts(h: Heap, a: nat)
    requires Sound(h) && Live(h, a) && h.arenas[ArenaOf(a)].Small?
    ensures CountsMatch(Pushed(h, a))
  {
    var p := ArenaOf(a);
    var k := h.arenas[p].desc;
    var n := Pushed(h, a);
    var i: nat :| i < TotalBlock(k) && a == Block(p, k, i);
    BlockInPage(p, k, i);
    forall q | q in n.arenas && n.arenas[q].Small?
      ensures n.arenas[q].desc < CLASSES && n.arenas[q].count == |FreeIn(n, q)|
    {
      forall j: nat ensures IsFree(n, q, j) <==> IsFree(h, q, j) || (q == p && j == i) {
        PushedFree(h, a, i, q, j);
      }
      if q == p {
        assert FreeIn(n, p) == FreeIn(h, p) + {i};
      } else {
        assert FreeIn(h, q) == FreeIn(n, q);
      }
    }
  }

  lemma PushedFree(h: Heap, a: nat, i: nat, q: nat, j: nat)
    requires |h.lists| == CLASSES && ArenaOf(a) in h.arenas && h.arenas[ArenaOf(a)].Small?
    requires var k := h.arenas[ArenaOf(a)].desc; k < CLASSES && i < TotalBlock(k) && a == Block(ArenaOf(a), k, i)
    ensures IsFree(Pushed(h, a), q, j) <==> IsFree(h, q, j) || (q == ArenaOf(a) && j == i)
  {
    var p := ArenaOf(a);
    var k := h.arenas[p].desc;
    if q == p && j != i {
      BlocksApart(p, k, if i < j then i else j, if i < j then j else i);
    } else if q != p && q in h.arenas && h.arenas[q].Small? && h.arenas[q].desc < CLASSES && j < TotalBlock(h.arenas[q].desc) {
      BlockInPage(q, h.arenas[q].desc, j);
    }
  }

  // A small arena whose blocks are all free has no live block.
  lemma AllFree(h: Heap, p: nat)
    requires Sound(h) && p in h.arenas && h.arenas[p].Small? && h.arenas[p].count == TotalBlock(h.arenas[p].desc)
    ensures forall x :: ArenaOf(x) == p ==> !Live(h, x)
  {
    var k := h.arenas[p].desc;
    forall x | ArenaOf(x) == p ensures !Live(h, x) {
      if i: nat :| i < TotalBlock(k) && x == Block(p, k, i) {
        FullSet(FreeIn(h, p), TotalBlock(k), i);
        assert IsFree(h, p, i);
      }
    }
  }

  lemma {:induction false} FullSet(s: set<nat>, n: nat, i: nat)
    requires (forall x :: x in s ==> x < n) && |s| == n && i < n
    ensures i in s
  {
    if n - 1 in s {
      if i < n - 1 {
        FullSet(s - {n - 1}, n - 1, i);
      }
    } else {
      BoundedSet(s, n - 1);
    }
  }

  lemma {:induction false} BoundedSet(s: set<nat>, n: nat)
    requires forall x :: x in s ==> x < n
    ensures |s| <= n
  {
    if n == 0 {
      assert s == {};
    } else {
      BoundedSet(s - {n - 1}, n - 1);
    }
  }

  // Dropping an arena without live blocks, together with its entries on the lists.
  lemma ReleaseKeeps(h: Heap, p: nat, n: Heap)
    requires Sound(h) && p in h.arenas
    requires FreeKpage(h.kmap, p, PagesOf(h.arenas[p])) == Ok(n.kmap) && n.arenas == h.arenas - {p} && |n.lists| == CLASSES
    requires forall k, x :: 0 <= k < CLASSES ==> (x in n.lists[k] <==> x in h.lists[k] && ArenaOf(x) != p)
    requires forall k, i, j :: 0 <= k < CLASSES && 0 <= i < j < |n.lists[k]| ==> n.lists[k][i] != n.lists[k][j]
    ensures Sound(n)
    ensures forall x :: Live(n, x) <==> Live(h, x) && ArenaOf(x) != p
  {
    forall x, j ensures IsBlock(n, x, j) <==> IsBlock(h, x, j) && ArenaOf(x) != p {
    }
    forall q, i: nat ensures IsFree(n, q, i) <==> IsFree(h, q, i) && q != p {
      if q in h.arenas && h.arenas[q].Small? && h.arenas[q].desc < CLASSES && i < TotalBlock(h.arenas[q].desc) {
        BlockInPage(q, h.arenas[q].desc, i);
      }
    }
    forall q | q != p ensures FreeIn(n, q) == FreeIn(h, q) {
    }
    assert PagesOwned(n);
  }

  lemma {:induction false} WithoutDistinct(l: seq<nat>, p: nat)
    requires forall i, j :: 0 <= i < j < |l| ==> l[i] != l[j]
    ensures forall i, j :: 0 <= i < j < |Without(l, p)| ==> Without(l, p)[i] != Without(l, p)[j]
  {
    if l != [] {
      WithoutDistinct(l[1..], p);
      assert l[0] !in l[1..];
      assert l[0] !in Without(l[1..], p);
    }
  }

  // kfree of a live block always succeeds, takes exactly that block away, and gives
  // the page back when the last block of an arena goes.
  lemma KfreeKeeps(h: Heap, a: nat)
    requires Inv(h) && Live(h, a)
    ensures Kfree(h, a).Ok?
    ensures var n := Kfree(h, a).value;
      && Inv(n) && (forall x :: Live(n, x) <==> Live(h, x) && x != a)
      && (forall x :: Live(n, x) ==> Capacity(n, x) == Capacity(h, x))
  {
    LiveInside(h, a);
    match h.arenas[ArenaOf(a)]
    case Large(_) => KfreeLarge(h, a);
    case Small(_, _) => KfreeSmall(h, a);
    hide Inv, Live, Capacity, Kfree;
  }

  lemma KfreeLarge(h: Heap, a: nat)
    requires Inv(h) && Live(h, a) && ArenaOf(a) in h.arenas && h.arenas[ArenaOf(a)].Large?
    ensures Kfree(h, a).Ok?
    ensures var n := Kfree(h, a).value;
      && Inv(n) && (forall x :: Live(n, x) <==> Live(h, x) && x != a)
      && (forall x :: Live(n, x) ==> Capacity(n, x) == Capacity(h, x))
  {
    LiveInside(h, a);
    ListsElsewhere(h, ArenaOf(a));
    ReleaseKeeps(h, ArenaOf(a), Kfree(h, a).value);
    hide Sound;
  }

  // The two ways to give back a block of a small arena.
  lemma KfreeIs(h: Heap, a: nat)
    requires Inv(h) && Live(h, a) && ArenaOf(a) in h.arenas && h.arenas[ArenaOf(a)].Small?
    ensures Sound(h) && |h.lists| == CLASSES && h.arenas[ArenaOf(a)].desc < CLASSES
    ensures var p := ArenaOf(a);
      var k := h.arenas[p].desc;
      Kfree(h, a) ==
        if h.arenas[p].count + 1 == TotalBlock(k) then
          var r := FreeKpage(h.kmap, p, 1);
          if r.Halt? then Halt(r.why) else Ok(Heap(r.value, h.arenas - {p}, h.lists[k := Without([a] + h.lists[k], p)]))
        else Ok(Pushed(h, a))
  {
    LiveInside(h, a);
    hide TotalBlock, FreeKpage, PagesOwned, CountsMatch, NoneIdle, BlockSize;
  }

  lemma MoreBlocks(h: Heap, a: nat)
    requires Inv(h) && ArenaOf(a) in h.arenas && h.arenas[ArenaOf(a)].Small? && h.arenas[ArenaOf(a)].desc < CLASSES == |h.lists|
    requires Sound(Pushed(h, a)) && h.arenas[ArenaOf(a)].count + 1 != TotalBlock(h.arenas[ArenaOf(a)].desc)
    ensures Inv(Pushed(h, a)) && forall x :: Capacity(Pushed(h, a), x) == Capacity(h, x)
  {
    hide Sound, TotalBlock, BlockSize, ArenaOf;
  }

  lemma LastBlock(h: Heap, a: nat, r: Result<Heap>)
    requires Inv(h) && ArenaOf(a) in h.arenas && h.arenas[ArenaOf(a)].Small? && h.arenas[ArenaOf(a)].desc < CLASSES == |h.lists|
    requires var p := ArenaOf(a); var k := h.arenas[p].desc; var f := FreeKpage(h.kmap, p, 1);
      && h.arenas[p].count + 1 == TotalBlock(k)
      && r == if f.Halt? then Halt(f.why) else Ok(Heap(f.value, h.arenas - {p}, h.lists[k := Without([a] + h.lists[k], p)]))
    requires Sound(Pushed(h, a)) && forall x :: Live(Pushed(h, a), x) <==> Live(h, x) && x != a
    ensures r.Ok? && Inv(r.value)
    ensures forall x :: Live(r.value, x) <==> Live(h, x) && x != a
    ensures forall x :: Live(r.value, x) ==> Capacity(r.value, x) == Capacity(h, x)
  {
    var p := ArenaOf(a);
    var k := h.arenas[p].desc;
    var h1 := Pushed(h, a);
    AllFree(h1, p);
    WithoutDistinct(h1.lists[k], p);
    ListsOfClass(h1, p);
    PageFrees(h1, p);
    hide Sound, Live, Capacity, FreeKpage, TotalBlock, ArenaOf, BlockSize;
    ReleaseKeeps(h1, p, r.value);
    LastIdle(h, p, r.value);
    LastCapacity(h, p, r.value);
  }

  lemma PageFrees(h: Heap, p: nat)
    requires PagesOwned(h) && p in h.arenas
    ensures FreeKpage(h.kmap, p, PagesOf(h.arenas[p])).Ok?
  {
  }

  lemma LastIdle(h: Heap, p: nat, n: Heap)
    requires NoneIdle(h) && n.arenas == h.arenas - {p}
    ensures NoneIdle(n)
  {
    hide TotalBlock;
  }

  lemma LastCapacity(h: Heap, p: nat, n: Heap)
    requires n.arenas == h.arenas - {p}
    ensures forall x :: Live(n, x) ==> Capacity(n, x) == Capacity(h, x)
  {
    hide BlockSize, IsBlock, ArenaOf;
  }

  lemma KfreeSmall(h: Heap, a: nat)
    requires Inv(h) && Live(h, a) && ArenaOf(a) in h.arenas && h.arenas[ArenaOf(a)].Small?
    ensures Kfree(h, a).Ok?
    ensures var n := Kfree(h, a).value;
      && Inv(n) && (forall x :: Live(n, x) <==> Live(h, x) && x != a)
      && (forall x :: Live(n, x) ==> Capacity(n, x) == Capacity(h, x))
  {
    hide *;
    KfreeIs(h, a);
    PushKeeps(h, a);
    var p := ArenaOf(a);
    if h.arenas[p].count + 1 == TotalBlock(h.arenas[p].desc) {
      LastBlock(h, a, Kfree(h, a));
    } else {
      MoreBlocks(h, a);
    }
  }

  // Only lists of its own class hold blocks of a page; a large arena is on none.
  lemma ListsOfClass(h: Heap, p: nat)
    requires ListsSound(h) && p in h.arenas && h.arenas[p].Small?
    ensures forall k, x :: 0 <= k < CLASSES && x in h.lists[k] && k != h.arenas[p].desc ==> ArenaOf(x) != p
  {
    forall k, x | 0 <= k < CLASSES && x in h.lists[k] && k != h.arenas[p].desc ensures ArenaOf(x) != p {
      assert IsBlock(h, x, k);
    }
  }

  lemma ListsElsewhere(h: Heap, p: nat)
    requires ListsSound(h) && p in h.arenas && h.arenas[p].Large?
    ensures forall k, x :: 0 <= k < CLASSES && x in h.lists[k] ==> ArenaOf(x) != p
  {
    forall k, x | 0 <= k < CLASSES && x in h.lists[k] ensures ArenaOf(x) != p {
      assert IsBlock(h, x, k);
    }
  }

  // Freeing the block just handed out restores the heap bit for bit: the page bitmap,
  // every arena and every free list in its order.
  lemma KfreeUndoesKmalloc(h: Heap, size: nat)
    requires Inv(h) && Kmalloc(h, size).Ok?
    ensures var (n, a) := Kmalloc(h, size).value; Kfree(n, a) == Ok(h)
  {
    KmallocKeeps(h, size);
    LiveInside(Kmalloc(h, size).value.0, Kmalloc(h, size).value.1);
    if size > 1024 {
      UndoLarge(h, size);
    } else if h.lists[ClassFor(size)] == [] {
      UndoNewArena(h, size);
    } else {
      UndoPop(h, size);
    }
    hide *;
  }

  lemma UndoLarge(h: Heap, size: nat)
    requires Inv(h) && size > 1024 && Kmalloc(h, size).Ok?
    ensures var (n, a) := Kmalloc(h, size).value; a != 0 ==> Kfree(n, a) == Ok(h)
  {
    FreshPages(h, LargePages(size));
    var (n, a) := Kmalloc(h, size).value;
    ArenaAdded(h, LargePages(size), Large(LargePages(size)), n);
    hide Inv, Sound, PagesOwned, FreeKpage, AllocKpage, LargePages;
    assert n.arenas - {ArenaOf(a)} == h.arenas;
  }

  lemma UndoNewArena(h: Heap, size: nat)
    requires Inv(h) && size <= 1024 && h.lists[ClassFor(size)] == [] && Kmalloc(h, size).Ok?
    ensures var (n, a) := Kmalloc(h, size).value; a != 0 ==> Kfree(n, a) == Ok(h)
  {
    var k := ClassFor(size);
    var (n, a) := Kmalloc(h, size).value;
    var h1 := NewArena(h, k).value;
    NewArenaKeeps(h, k);
    FreshPages(h, 1);
    var p := AllocKpage(h.kmap, 1).value.1;
    PushAllPage(p, k);
    assert h1.lists[k] == [a] + h1.lists[k][1..] && ArenaOf(a) == p;
    NothingLeft(h1.lists[k], p);
    BlocksDiffer(p, k);
    hide Inv, Sound, PagesOwned, FreeKpage, AllocKpage, ClassFor, TotalBlock, BlockSize, Live, Capacity;
    assert n.arenas - {p} == h.arenas;
    assert n.arenas[p] == Small(k, TotalBlock(k) - 1);
    assert n.lists == h1.lists[k := h1.lists[k][1..]] && [a] + n.lists[k] == h1.lists[k];
    assert n.lists[k := []] == h.lists;
    assert FreeKpage(n.kmap, p, 1) == Ok(h.kmap);
  }

  lemma BlocksDiffer(p: nat, k: nat)
    requires k < CLASSES
    ensures var l := PushAll(p, k, TotalBlock(k)); l != [] && l[0] !in l[1..]
  {
    var l := PushAll(p, k, TotalBlock(k));
    forall j | 1 <= j < |l| ensures l[j] != l[0] {
      BlocksApart(p, k, TotalBlock(k) - 1 - j, TotalBlock(k) - 1);
    }
  }

  lemma PopIs(h: Heap, size: nat)
    requires |h.lists| == CLASSES && size <= 1024 && h.lists[ClassFor(size)] != [] && Kmalloc(h, size).Ok?
    ensures var k, (n, a) := ClassFor(size), Kmalloc(h, size).value;
      k < CLASSES && Popped(h, k, n) && a == h.lists[k][0] && |n.lists| == CLASSES
  {
    hide ClassFor;
  }

  lemma HeadOnce(h: Heap, k: nat)
    requires Inv(h) && k < CLASSES && |h.lists| == CLASSES && h.lists[k] != []
    ensures var a := h.lists[k][0]; var p := ArenaOf(a);
      && a !in h.lists[k][1..] && p in h.arenas && h.arenas[p].Small? && h.arenas[p].desc == k
      && 0 < h.arenas[p].count < TotalBlock(k)
  {
    HeadArena(h, k);
    hide CountsMatch, PagesOwned, IsBlock, TotalBlock;
  }

  lemma UndoPopped(h: Heap, k: nat, n: Heap, a: nat)
    requires Popped(h, k, n) && a == h.lists[k][0] && a !in h.lists[k][1..] && |n.lists| == CLASSES
    requires var p := ArenaOf(a); h.arenas[p].desc == k && h.arenas[p].count < TotalBlock(k)
    ensures a != 0 ==> Kfree(n, a) == Ok(h)
  {
    hide TotalBlock, FreeKpage, ArenaOf;
    assert h.lists[k] == [a] + h.lists[k][1..];
    assert n.arenas[ArenaOf(a) := h.arenas[ArenaOf(a)]] == h.arenas;
    assert n.lists[k := h.lists[k]] == h.lists;
  }

  lemma UndoPop(h: Heap, size: nat)
    requires Inv(h) && size <= 1024 && h.lists[ClassFor(size)] != [] && Kmalloc(h, size).Ok?
    ensures var (n, a) := Kmalloc(h, size).value; a != 0 ==> Kfree(n, a) == Ok(h)
  {
    hide *;
    var k := ClassFor(size);
    SevenLists(h);
    PopIs(h, size);
    HeadOnce(h, k);
    UndoPopped(h, k, Kmalloc(h, size).value.0, Kmalloc(h, size).value.1);
  }

  lemma {:induction false} NothingLeft(l: seq<nat>, p: nat)
    requires forall x :: x in l ==> ArenaOf(x) == p
    ensures Without(l, p) == []
  {
    if l != [] {
      NothingLeft(l[1..], p);
    }
  }
}
