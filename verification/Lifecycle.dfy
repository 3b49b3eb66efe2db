/**
 The resources of a process, over memory.cpp, arena.cpp and task.cpp together: what
 taskFork takes (a task page, a vmap structure from the heap, a page for its bits, a
 page directory, page tables and shared frames) and what taskExit and taskWaitpid
 give back.
 */
module Lifecycle {
  import opened Outcome
  import P = Paging
  import I = PagingInvariant
  import F = ForkExit
  import H = Heap

  const BITMAP_T := 12               // sizeof(bitmap_t)

  // Where the kernel keeps process c: its task page, its vmap and the bits of it.
  datatype Proc = Proc(task: nat, vmap: nat, bits: nat)

  datatype Kernel = Kernel(mem: P.Mem, heap: H.Heap, procs: map<nat, Proc>)

  ghost predicate Inv(k: Kernel) {
    I.Inv(k.mem) && H.Inv(k.heap) && |k.mem.phys| == |k.mem.refs| && |k.heap.lists| == H.CLASSES
  }

  // getFreeTask, then the rest of taskFork: child c of process i.
  function ForkProcess(k: Kernel, i: nat, c: nat): Result<Kernel>
    requires i in k.mem.spaces && c !in k.mem.spaces && |k.mem.phys| == |k.mem.refs| && |k.heap.lists| == H.CLASSES
  {
    var (kmap1, task) :- H.AllocKpage(k.heap.kmap, 1);
    var (heap2, vmap) :- H.Kmalloc(k.heap.(kmap := kmap1), BITMAP_T);
    var (kmap3, bits) :- H.AllocKpage(heap2.kmap, 1);
    var (kmap4, dir) :- H.AllocKpage(kmap3, 1);
    var mem :- P.Fork(k.mem, i, c, dir);
    Ok(Kernel(mem, heap2.(kmap := kmap4), k.procs[c := Proc(task, vmap, bits)]))
  }

  // taskExit: freePde and its directory, then the bits of vmap, then vmap.
  function ExitProcess(k: Kernel, c: nat): Result<Kernel>
    requires c in k.mem.spaces && c in k.procs && |k.heap.lists| == H.CLASSES
  {
    var mem :- P.Exit(k.mem, c);
    var kmap1 :- H.FreeKpage(k.heap.kmap, k.mem.spaces[c].dir[P.SELF_PDE].index, 1);
    var kmap2 :- H.FreeKpage(kmap1, k.procs[c].bits, 1);
    var heap :- H.Kfree(k.heap.(kmap := kmap2), k.procs[c].vmap);
    Ok(k.(mem := mem, heap := heap))
  }

  // taskWaitpid, when it finds the dead child c.
  function ReapProcess(k: Kernel, c: nat): Result<Kernel>
    requires c in k.procs
  {
    var kmap :- H.FreeKpage(k.heap.kmap, k.procs[c].task, 1);
    Ok(k.(heap := k.heap.(kmap := kmap), procs := k.procs - {c}))
  }

  // A page taken for other purposes leaves the heap as it is.
  lemma PageTaken(h: H.Heap)
    requires H.Inv(h) && H.AllocKpage(h.kmap, 1).Ok?
    ensures var (kmap, p) := H.AllocKpage(h.kmap, 1).value;
      H.Inv(h.(kmap := kmap)) && H.FreeKpage(kmap, p, 1) == Ok(h.kmap)
  {
    H.FreshPages(h, 1);
    var (kmap, p) := H.AllocKpage(h.kmap, 1).value;
    var n := h.(kmap := kmap);
    assert forall q, i :: H.IsFree(n, q, i) <==> H.IsFree(h, q, i);
    forall q ensures H.FreeIn(n, q) == H.FreeIn(h, q) {
    }
    assert forall a, j :: H.IsBlock(n, a, j) <==> H.IsBlock(h, a, j);
  }

  // The last slot of the child's directory names its own page, all through copyPde.
  lemma {:induction false} SelfSlot(m: P.Mem, i: nat, c: nat, d: nat)
    requires i in m.spaces && c in m.spaces && d <= P.SELF_PDE && |m.phys| == |m.refs|
    ensures P.CopyTables(m, i, c, d).Ok? ==>
      P.CopyTables(m, i, c, d).value.spaces[c].dir[P.SELF_PDE] == m.spaces[c].dir[P.SELF_PDE]
  {
    if d > P.FIRST_USER_PDE {
      SelfSlot(m, i, c, d - 1);
    }
  }

  // fork, exit of the child and waitpid of the parent together restore memoryMap,
  // freePages, every address space, the kernel page bitmap and the heap down to the
  // order of its free lists.  Only write permissions of the parent may be missing.
  lemma ForkExitWaitRestores(k: Kernel, i: nat, c: nat)
    requires Inv(k) && i in k.mem.spaces && c !in k.mem.spaces && c !in k.procs && |k.mem.spaces| < P.NR_TASKS
    requires ForkProcess(k, i, c).Ok?
    ensures var forked := ForkProcess(k, i, c).value;
      && c in forked.mem.spaces && c in forked.procs && |forked.heap.lists| == H.CLASSES
      && ExitProcess(forked, c).Ok?
      && var exited := ExitProcess(forked, c).value;
         && c in exited.procs && ReapProcess(exited, c).Ok?
         && var n := ReapProcess(exited, c).value;
            && n.mem.refs == k.mem.refs && n.mem.free == k.mem.free && n.mem.spaces == k.mem.spaces
            && (forall j: nat, w: nat ::
                  P.Pte(n.mem, j, w) == P.Pte(k.mem, j, w)
                  || (j == i && P.Pte(n.mem, j, w) == P.ReadOnly(P.Pte(k.mem, j, w))))
            && (forall j: nat, w: nat, page: P.Page :: I.Sees(n.mem, j, w, page) <==> I.Sees(k.mem, j, w, page))
            && n.heap == k.heap && n.procs == k.procs && Inv(n)
  {
    hide I.Inv, H.Inv, P.Fork, P.Exit, H.AllocKpage, H.FreeKpage, H.Kmalloc, H.Kfree, P.Pte, I.Sees;
    var (kmap1, task) := H.AllocKpage(k.heap.kmap, 1).value;
    PageTaken(k.heap);
    var heap1 := k.heap.(kmap := kmap1);
    var (heap2, vmap) := H.Kmalloc(heap1, BITMAP_T).value;
    H.KmallocKeeps(heap1, BITMAP_T);
    H.KfreeUndoesKmalloc(heap1, BITMAP_T);
    PageTaken(heap2);
    var (kmap3, bits) := H.AllocKpage(heap2.kmap, 1).value;
    PageTaken(heap2.(kmap := kmap3));
    var (kmap4, dir) := H.AllocKpage(kmap3, 1).value;
    F.ForkKeeps(k.mem, i, c, dir);
    F.ExitUndoesFork(k.mem, i, c, dir);
    ChildDirectory(k.mem, i, c, dir);
    var forked := ForkProcess(k, i, c).value;
    assert forked.procs - {c} == k.procs;
    assert heap2.(kmap := kmap4).(kmap := heap2.kmap) == heap2;
    assert heap1.(kmap := k.heap.kmap) == k.heap;
    SameSize(k.mem, forked.mem, c);
  }

  lemma ChildDirectory(m: P.Mem, i: nat, c: nat, self: nat)
    requires i in m.spaces && c !in m.spaces && |m.phys| == |m.refs| && P.Fork(m, i, c, self).Ok?
    ensures c in P.Fork(m, i, c, self).value.spaces
    ensures P.Fork(m, i, c, self).value.spaces[c].dir[P.SELF_PDE].index == self
  {
    SelfSlot(m.(spaces := m.spaces[c := m.spaces[i].(dir := P.ChildDir(m.spaces[i].dir, self))]), i, c, P.SELF_PDE);
  }

  lemma SameSize(m: P.Mem, n: P.Mem, c: nat)
    requires I.Inv(n) && c in n.spaces && P.Exit(n, c).Ok?
    ensures |P.Exit(n, c).value.phys| == |P.Exit(n, c).value.refs|
  {
    F.ExitKeeps(n, c);
  }
}
