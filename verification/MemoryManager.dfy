/**
 src/kernel/memory.cpp as it is written: memoryMap and the frames are arrays updated
 in place, the loops are the source's loops.  Every method is proved to compute the
 function of the same name in module Paging.
 */
module MemoryManager {
  import opened Outcome
  import P = Paging
  import opened PagingInvariant
  import opened ForkExit

  class MemoryManager {
    const startPage: nat
    const memoryMap: array<P.uint8>
    const frames: array<P.Frame>
    var freePages: int
    var spaces: map<nat, P.Space>

    ghost function View(): P.Mem
      reads this, memoryMap, frames
    {
      P.Mem(startPage, memoryMap[..], freePages, frames[..], spaces)
    }

    // memoryInit, memoryMapInit and mappingInit: both maps are filled, and freePages
    // has not noticed that the rest of the first 16M is in use too.
    constructor Boot(totalPages: nat, memoryMapPages: nat)
      requires P.KERNEL_FRAMES <= totalPages && memoryMapPages <= 256
      ensures View() == P.Boot(totalPages, memoryMapPages) && fresh(memoryMap) && fresh(frames)
    {
      startPage := 256 + memoryMapPages;
      memoryMap := new P.uint8[totalPages](p => if p < P.KERNEL_FRAMES then 1 else 0);
      var blank := P.BlankPage();
      frames := new P.Frame[totalPages](_ => P.Data(blank));
      freePages := totalPages - 256 - memoryMapPages;
      spaces := map[];
      new;
      assert memoryMap[..] == P.BootMap(totalPages);
      assert frames[..] == seq(totalPages, _ => P.Data(P.BlankPage()));
    }

    method GetPage() returns (r: Result<nat>)
      modifies this`freePages, memoryMap
      ensures r.Halt? <==> forall k :: startPage <= k < memoryMap.Length ==> old(memoryMap[..])[k] != 0
      ensures r.Ok? ==> P.IsFirstFree(old(memoryMap[..]), startPage, r.value)
      ensures r.Halt? ==> P.GetPage(old(View())) == Halt(r.why)
      ensures r.Ok? ==> P.GetPage(old(View())) == Ok((View(), r.value))
    {
      var i := startPage;
      while i < memoryMap.Length
        invariant startPage <= i
        invariant forall k :: startPage <= k < i && k < memoryMap.Length ==> memoryMap[k] != 0
      {
        if memoryMap[i] == 0 {
          FirstFreeIs(memoryMap[..], startPage, i);
          memoryMap[i] := 1;
          freePages := freePages - 1;
          return Ok(i);
        }
        i := i + 1;
      }
      return Halt(OutOfMemory);
    }

    method PutPage(p: nat) returns (r: Result<()>)
      modifies this`freePages, memoryMap
      ensures r.Halt? ==> P.PutPage(old(View()), p) == Halt(r.why)
      ensures r.Ok? ==> P.PutPage(old(View()), p) == Ok(View())
    {
      if !(startPage <= p < memoryMap.Length) {
        return Halt(AssertFailed);
      }
      if memoryMap[p] < 1 {
        return Halt(AssertFailed);
      }
      memoryMap[p] := memoryMap[p] - 1;
      if memoryMap[p] == 0 {
        freePages := freePages + 1;
      }
      assert memoryMap[..] == old(memoryMap[..])[p := old(memoryMap[p]) - 1];
      if !(0 < freePages < memoryMap.Length) {
        return Halt(AssertFailed);
      }
      return Ok(());
    }

    // The frame of the page table of page v; if it is missing it is created empty, or
    // asserted against.
    method GetPte(i: nat, v: nat, create: bool) returns (r: Result<nat>)
      requires Inv(View()) && i in spaces && P.USER_BASE <= v < P.VIRTUAL_LIMIT
      modifies this, memoryMap, frames
      ensures !create ==> View() == old(View())
      ensures !create ==> if P.Pde(old(View()), i, v / 1024).present then r.Ok? else r == Halt(AssertFailed)
      ensures create && r.Halt? ==> P.EnsureTable(old(View()), i, v) == Halt(r.why)
      ensures r.Ok? ==> P.EnsureTable(old(View()), i, v) == Ok(View())
      ensures r.Ok? ==> Inv(View()) && P.HasTable(View(), i, v / 1024) && r.value == P.Pde(View(), i, v / 1024).index
    {
      EnsureTableKeeps(View(), i, v);
      ghost var before := View();
      var d := v / 1024;
      if !create && !spaces[i].dir[d].present {
        return Halt(AssertFailed);
      }
      if !spaces[i].dir[d].present {
        var page := GetPage();
        if page.Halt? {
          return Halt(page.why);
        }
        spaces := spaces[i := spaces[i].(dir := spaces[i].dir[d := P.Entry(true, true, page.value)])];
        var empty := P.EmptyTable();
        frames[page.value] := P.Table(empty);
        assert P.EnsureTable(before, i, v) == Ok(View());
      }
      TableInv(before, View(), i, v);
      return Ok(spaces[i].dir[d].index);
    }

    // Writing an entry of a page table.
    method WriteEntry(i: nat, v: nat, t: nat, e: P.Entry)
      requires |frames[..]| == |memoryMap[..]|
      requires P.HasTable(View(), i, v / 1024) && t == P.Pde(View(), i, v / 1024).index
      modifies frames
      ensures View() == P.SetPte(old(View()), i, v, e)
    {
      frames[t] := P.Table(frames[t].ptes[v % 1024 := e]);
      assert View().phys == P.SetPte(old(View()), i, v, e).phys;
    }

    // `junk` is what the fresh frame happens to hold: the source does not clear it.
    method LinkPage(i: nat, v: nat, junk: P.Page) returns (r: Result<()>)
      requires Inv(View()) && i in spaces && P.USER_BASE <= v < P.VIRTUAL_LIMIT
      modifies this, memoryMap, frames
      ensures r.Halt? ==> P.LinkPage(old(View()), i, v, junk) == Halt(r.why)
      ensures r.Ok? ==> P.LinkPage(old(View()), i, v, junk) == Ok(View())
    {
      var t := GetPte(i, v, true);
      if t.Halt? {
        return Halt(t.why);
      }
      ghost var m1 := View();
      var entry := frames[t.value].ptes[v % 1024];
      assert entry == P.Pte(m1, i, v);
      if v >= P.VMAP_LIMIT {
        return Halt(AssertFailed);
      }
      if entry.present {
        if v !in spaces[i].vmap {
          return Halt(AssertFailed);
        }
        return Ok(());
      }
      if v in spaces[i].vmap {
        return Halt(AssertFailed);
      }
      spaces := spaces[i := spaces[i].(vmap := spaces[i].vmap + {v})];
      assert View() == P.SetVmap(m1, i, m1.spaces[i].vmap + {v});
      var page := GetPage();
      if page.Halt? {
        return Halt(page.why);
      }
      WriteEntry(i, v, t.value, P.Entry(true, true, page.value));
      frames[page.value] := P.Data(junk);
      return Ok(());
    }

    method UnlinkPage(i: nat, v: nat) returns (r: Result<()>)
      requires Inv(View()) && i in spaces && P.USER_BASE <= v < P.VIRTUAL_LIMIT
      modifies this, memoryMap, frames
      ensures r.Halt? ==> P.UnlinkPage(old(View()), i, v) == Halt(r.why)
      ensures r.Ok? ==> P.UnlinkPage(old(View()), i, v) == Ok(View())
    {
      var t := GetPte(i, v, true);
      if t.Halt? {
        return Halt(t.why);
      }
      ghost var m1 := View();
      var entry := frames[t.value].ptes[v % 1024];
      assert entry == P.Pte(m1, i, v);
      if v >= P.VMAP_LIMIT {
        return Halt(AssertFailed);
      }
      if !entry.present {
        if v in spaces[i].vmap {
          return Halt(AssertFailed);
        }
        return Ok(());
      }
      if v !in spaces[i].vmap {
        return Halt(AssertFailed);
      }
      WriteEntry(i, v, t.value, entry.(present := false));
      spaces := spaces[i := spaces[i].(vmap := spaces[i].vmap - {v})];
      r := PutPage(entry.index);
    }

    method CopyPage(p: nat) returns (r: Result<nat>)
      requires frames.Length == memoryMap.Length && p < frames.Length
      modifies this`freePages, memoryMap, frames
      ensures r.Halt? ==> P.CopyPage(old(View()), p) == Halt(r.why)
      ensures r.Ok? ==> P.CopyPage(old(View()), p) == Ok((View(), r.value))
    {
      r := GetPage();
      if r.Ok? {
        frames[r.value] := frames[p];
        assert frames[..] == old(frames[..])[r.value := old(frames[p])];
      }
    }

    method SysBrk(i: nat, addr: nat) returns (r: Result<int>)
      requires Inv(View()) && i in spaces && frames.Length == memoryMap.Length
      modifies this, memoryMap, frames
      ensures r.Halt? ==> P.Brk(old(View()), i, addr) == Halt(r.why)
      ensures r.Ok? ==> P.Brk(old(View()), i, addr) == Ok((View(), r.value))
    {
      hide Inv, P.UnlinkPage;
      var brk := addr / P.PAGE_SIZE;
      if addr % P.PAGE_SIZE != 0 || !(P.USER_BASE <= brk < P.STACK_BOTTOM) {
        return Halt(AssertFailed);
      }
      var old_brk := spaces[i].brk;
      ghost var m := View();
      NothingAbove(m, i);
      if old_brk > brk {
        var page := brk;
        while page < old_brk
          invariant brk <= page <= old_brk
          invariant P.UnlinkRange(m, i, brk, page) == Ok(View())
          invariant Inv(View()) && i in spaces
        {
          UnlinkRangeKeeps(m, i, brk, page + 1);
          var u := UnlinkPage(i, page);
          if u.Halt? {
            UnlinkRangeHalts(m, i, brk, page + 1, old_brk);
            return Halt(u.why);
          }
          page := page + 1;
        }
      } else if brk - old_brk > freePages {
        return Ok(-1);
      }
      spaces := spaces[i := spaces[i].(brk := brk)];
      return Ok(0);
    }

    // A page with several users is copied for the one that writes.
    method SplitPage(i: nat, v: nat, t: nat, p: nat) returns (r: Result<()>)
      requires Inv(View()) && i in spaces && P.Pte(View(), i, v).present && frames.Length == memoryMap.Length
      requires P.HasTable(View(), i, v / 1024) && t == P.Pde(View(), i, v / 1024).index
      requires p == P.Pte(View(), i, v).index < memoryMap.Length && memoryMap[p] > 1
      modifies this`freePages, memoryMap, frames
      ensures r.Halt? ==> P.CopyPage(old(View()), p) == Halt(r.why)
      ensures r.Ok? ==> SplitResult(old(View()), i, v, p, View())
    {
      ghost var m := View();
      PresentPage(m, i, v);
      CopyKeepsTables(m, i, v, p);
      hide Inv, P.CopyPage, P.SetPte, P.Pte, P.Pde, P.HasTable, SplitResult, TablesThere;
      var page := CopyPage(p);
      if page.Halt? {
        return Halt(page.why);
      }
      SplitIs(m, View(), page.value, i, v, p);
      Detach(i, v, t, p, page.value);
      return Ok(());
    }

    // The old frame loses a user; the entry now leads to frame f.
    method Detach(i: nat, v: nat, t: nat, p: nat, f: nat)
      requires frames.Length == memoryMap.Length && p < memoryMap.Length && memoryMap[p] > 0
      requires P.HasTable(View(), i, v / 1024) && t == P.Pde(View(), i, v / 1024).index
      modifies memoryMap, frames
      ensures P.HasTable(LessOne(old(View()), p), i, v / 1024)
      ensures View() == P.SetPte(LessOne(old(View()), p), i, v, P.Entry(true, true, f))
    {
      ghost var m := View();
      memoryMap[p] := memoryMap[p] - 1;
      assert memoryMap[..] == LessOne(m, p).refs;
      assert View() == LessOne(m, p);
      SamePde(m, View(), i, v);
      WriteEntry(i, v, t, P.Entry(true, true, f));
    }

    // `present` and `write` are the bits of the error code.
    method PageFault(i: nat, vaddr: nat, present: bool, write: bool, junk: P.Page) returns (r: Result<()>)
      requires Inv(View()) && i in spaces && frames.Length == memoryMap.Length
      requires present == P.Pte(View(), i, vaddr / P.PAGE_SIZE).present
      modifies this, memoryMap, frames
      ensures r.Halt? ==> P.PageFault(old(View()), i, vaddr, present, write, junk) == Halt(r.why)
      ensures r.Ok? ==> P.PageFault(old(View()), i, vaddr, present, write, junk) == Ok(View())
    {
      var v := vaddr / P.PAGE_SIZE;
      ghost var m := View();
      FaultCases(m, i, vaddr, present, write, junk);
      hide P.PageFault;
      if !(P.USER_BASE <= v < P.STACK_TOP) {
        return Halt(AssertFailed);
      }
      if present {
        PresentPage(m, i, v);
        if !write {
          return Halt(AssertFailed);
        }
        var table := GetPte(i, v, false);
        var t := table.value;
        var entry := frames[t].ptes[v % 1024];
        assert entry == P.Pte(m, i, v);
        hide Inv;
        if memoryMap[entry.index] == 0 {
          return Halt(AssertFailed);
        }
        if memoryMap[entry.index] == 1 {
          WriteEntry(i, v, t, entry.(write := true));
          return Ok(());
        }
        r := SplitPage(i, v, t, entry.index);
        return;
      }
      if v < spaces[i].brk || v >= P.STACK_BOTTOM {
        r := LinkPage(i, v, junk);
        return;
      }
      return Halt(SegFault);
    }

    // The inner loop of copyPde over the table in frame t.
    method ShareTable(t: nat) returns (r: Result<()>)
      requires t < frames.Length == memoryMap.Length && frames[t].Table?
      requires forall k | 0 <= k < 1024 && frames[t].ptes[k].present :: frames[t].ptes[k].index < memoryMap.Length
      modifies memoryMap, frames
      ensures r.Halt? ==> P.Share(old(memoryMap[..]), old(frames[t]).ptes, 1024) == Halt(r.why)
      ensures r.Ok? ==> P.Share(old(memoryMap[..]), old(frames[t]).ptes, 1024) == Ok(memoryMap[..])
      ensures r.Ok? ==> frames[..] == old(frames[..])[t := P.Table(P.AllReadOnly(old(frames[t]).ptes))]
    {
      ghost var ptes := frames[t].ptes;
      ghost var refs := memoryMap[..];
      var tidx := 0;
      while tidx < 1024
        invariant 0 <= tidx <= 1024 && frames[t].Table?
        invariant P.Share(refs, ptes, tidx) == Ok(memoryMap[..])
        invariant forall k :: 0 <= k < 1024 ==> frames[t].ptes[k] == if k < tidx then P.ReadOnly(ptes[k]) else ptes[k]
        invariant forall f :: 0 <= f < frames.Length && f != t ==> frames[f] == old(frames[f])
      {
        var entry := frames[t].ptes[tidx];
        if entry.present {
          if memoryMap[entry.index] == 0 {
            ShareHalts(refs, ptes, tidx + 1, 1024);
            return Halt(AssertFailed);
          }
          frames[t] := P.Table(frames[t].ptes[tidx := entry.(write := false)]);
          ghost var before := memoryMap[..];
          var n := memoryMap[entry.index] as int + 1;
          memoryMap[entry.index] := n % 256;
          assert memoryMap[..] == before[entry.index := n % 256];
          if memoryMap[entry.index] >= 255 {
            ShareHalts(refs, ptes, tidx + 1, 1024);
            return Halt(AssertFailed);
          }
        }
        tidx := tidx + 1;
      }
      assert frames[t].ptes == P.AllReadOnly(ptes);
      return Ok(());
    }

    // One round of the outer loop of copyPde: the frame of the child's table.
    method CopyOne(i: nat, c: nat, d: nat, ghost s: P.Mem) returns (r: Result<nat>)
      requires Copying(s, i, c) && P.FIRST_USER_PDE <= d < P.SELF_PDE && P.Pde(s, i, d).present
      requires memoryMap[..] == s.refs && frames[..] == s.phys && freePages == s.free && startPage == s.start
      requires i in spaces && spaces[i] == s.spaces[i]
      modifies this`freePages, memoryMap, frames
      ensures r.Halt? ==> P.CopyTable(s, i, c, d) == Halt(r.why)
      ensures r.Ok? ==>
        var n := P.SetPde(s, c, d, P.Pde(s, i, d).(index := r.value));
        P.CopyTable(s, i, c, d) == Ok(n.(refs := memoryMap[..], free := freePages, phys := frames[..]))
    {
      var t := spaces[i].dir[d].index;
      TableReady(s, i, c, d);
      assert frames[t].ptes == P.TableOf(s, i, d);
      var shared := ShareTable(t);
      if shared.Halt? {
        return Halt(shared.why);
      }
      hide Copying;
      r := CopyPage(t);
    }

    // The address space part of taskFork: copyPde, then vmap and brk.
    method Fork(i: nat, c: nat, self: nat) returns (r: Result<()>)
      requires Inv(View()) && i in spaces && c !in spaces && |spaces| < P.NR_TASKS
      requires frames.Length == memoryMap.Length
      modifies this, memoryMap, frames
      ensures r.Halt? ==> P.Fork(old(View()), i, c, self) == Halt(r.why)
      ensures r.Ok? ==> P.Fork(old(View()), i, c, self) == Ok(View())
    {
      hide Inv, Copying, Among, CopyLoop, P.Fork, P.CopyTables, P.CopyTable, P.SetPde, P.Pde;
      ghost var m := View();
      var pde: P.Entries := spaces[i].dir[1023 := P.Entry(true, true, self)];
      ghost var m0 := m.(spaces := m.spaces[c := m.spaces[i].(dir := P.ChildDir(m.spaces[i].dir, self))]);
      NewDirectory(m, m0, i, c, self);
      CopyLoopStart(m0, i, c, self, pde);
      ghost var s := m0;
      var didx := P.FIRST_USER_PDE;
      while didx < P.SELF_PDE
        invariant P.FIRST_USER_PDE <= didx <= P.SELF_PDE
        invariant CopyLoop(m0, s, i, c, didx, pde)
        invariant memoryMap[..] == s.refs && frames[..] == s.phys && freePages == s.free
        invariant spaces == m.spaces
      {
        CopyLoopFacts(m0, s, i, c, didx, pde);
        if pde[didx].present {
          var step := CopyOne(i, c, didx, s);
          if step.Halt? {
            CopyLoopStops(m, m0, s, i, c, self, didx, pde, step.why);
            return Halt(step.why);
          }
          var dentry := pde[didx].(index := step.value);
          ghost var s' := P.CopyTable(s, i, c, didx).value;
          CopyLoopNext(m0, s, s', i, c, didx, pde, dentry);
          pde := pde[didx := dentry];
          s := s';
        } else {
          CopyLoopSkip(m0, s, i, c, didx, pde);
        }
        didx := didx + 1;
      }
      spaces := spaces[c := spaces[i].(dir := pde)];
      CopyLoopEnd(m, m0, s, i, c, self, pde);
      return Ok(());
    }

    // One round of freePde: the pages of the table in frame t, then the table.
    method FreeOne(i: nat, d: nat, ghost s: P.Mem) returns (r: Result<()>)
      requires i in s.spaces && P.HasTable(s, i, d)
      requires memoryMap[..] == s.refs && frames[..] == s.phys && freePages == s.free && startPage == s.start
      requires i in spaces && P.Pde(s, i, d) == spaces[i].dir[d]
      modifies this`freePages, memoryMap
      ensures r.Halt? ==> P.FreeTable(s, i, d) == Halt(r.why)
      ensures r.Ok? ==>
        var n := P.SetPde(s, i, d, P.ABSENT);
        P.FreeTable(s, i, d) == Ok(n.(refs := memoryMap[..], free := freePages))
    {
      var t := spaces[i].dir[d].index;
      var ptes := frames[t].ptes;
      var tidx := 0;
      while tidx < 1024
        invariant 0 <= tidx <= 1024
        invariant P.DropPages(s, ptes, tidx) == Ok(s.(refs := memoryMap[..], free := freePages))
      {
        if ptes[tidx].present {
          var put := PutPage(ptes[tidx].index);
          if put.Halt? {
            DropPagesHalts(s, ptes, tidx + 1, 1024);
            return Halt(put.why);
          }
        }
        tidx := tidx + 1;
      }
      r := PutPage(t);
    }

    // The address space part of taskExit: freePde.  None of its asserts can fail.
    method Exit(i: nat)
      requires Inv(View()) && i in spaces
      modifies this, memoryMap
      ensures P.Exit(old(View()), i) == Ok(View())
    {
      hide Core, Mirror, P.FreeTable;
      ghost var m := View();
      ghost var s := m;
      var didx := P.FIRST_USER_PDE;
      while didx < P.SELF_PDE
        invariant P.FIRST_USER_PDE <= didx <= P.SELF_PDE
        invariant P.FreeTables(m, i, didx) == Ok(s) && Core(s) && Cleared(m, s, i, didx)
        invariant memoryMap[..] == s.refs && frames[..] == s.phys && freePages == s.free && spaces == m.spaces
      {
        FreeTablesKeeps(m, i, didx + 1);
        assert P.Pde(s, i, didx) == spaces[i].dir[didx];
        if spaces[i].dir[didx].present {
          SlotHasTable(s, i, didx);
          var step := FreeOne(i, didx, s);
          assert step.Ok?;
          s := P.FreeTable(s, i, didx).value;
        }
        didx := didx + 1;
      }
      spaces := spaces - {i};
      assert s.spaces - {i} == spaces;
    }
  }

  lemma SamePde(m: P.Mem, n: P.Mem, i: nat, v: nat)
    requires n.spaces == m.spaces
    ensures P.Pde(n, i, v / 1024) == P.Pde(m, i, v / 1024)
  {
  }

  function LessOne(m: P.Mem, p: nat): P.Mem
    requires p < |m.refs| && m.refs[p] > 0
  {
    m.(refs := m.refs[p := m.refs[p] - 1])
  }

  // What copyPage leaves to go on with: the frame still has its users, and page v of
  // process i its table.
  ghost predicate TablesThere(m: P.Mem, n: P.Mem, i: nat, v: nat, p: nat) {
    p < |n.refs| && n.refs[p] > 0 && P.HasTable(n, i, v / 1024) && P.Pde(n, i, v / 1024) == P.Pde(m, i, v / 1024)
  }

  lemma CopyKeepsTables(m: P.Mem, i: nat, v: nat, p: nat)
    requires Inv(m) && i in m.spaces && |m.phys| == |m.refs| && P.Pte(m, i, v).present && p == P.Pte(m, i, v).index < |m.refs|
    requires m.refs[p] > 1
    ensures P.CopyPage(m, p).Ok? ==> TablesThere(m, P.CopyPage(m, p).value.0, i, v, p)
  {
    PresentPage(m, i, v);
    WriteFault(m, i, v);
    hide Inv, Resolved, P.SetPte, P.Pte;
    if P.CopyPage(m, p).Ok? {
      var n := P.CopyPage(m, p).value.0;
      assert n.spaces == m.spaces;
    }
  }

  // n is m with frame p copied for page v of process i, which may write the copy.
  ghost predicate SplitResult(m: P.Mem, i: nat, v: nat, p: nat, n: P.Mem)
    requires |m.phys| == |m.refs| && p < |m.phys|
  {
    && P.CopyPage(m, p).Ok?
    && var (m1, f) := P.CopyPage(m, p).value;
    && p < |m1.refs| && m1.refs[p] > 0 && P.HasTable(m1, i, v / 1024)
    && P.HasTable(LessOne(m1, p), i, v / 1024)
    && n == P.SetPte(LessOne(m1, p), i, v, P.Entry(true, true, f))
  }

  lemma SplitIs(m: P.Mem, m1: P.Mem, f: nat, i: nat, v: nat, p: nat)
    requires |m.phys| == |m.refs| && p < |m.phys| && P.CopyPage(m, p) == Ok((m1, f)) && TablesThere(m, m1, i, v, p)
    ensures p < |m1.refs| && m1.refs[p] > 0 && P.HasTable(m1, i, v / 1024) && P.Pde(m1, i, v / 1024) == P.Pde(m, i, v / 1024)
    ensures P.HasTable(LessOne(m1, p), i, v / 1024)
    ensures SplitResult(m, i, v, p, P.SetPte(LessOne(m1, p), i, v, P.Entry(true, true, f)))
  {
    hide P.CopyPage, P.SetPte;
  }

  // The ways through the fault handler.
  lemma FaultCases(m: P.Mem, i: nat, vaddr: nat, present: bool, write: bool, junk: P.Page)
    requires Inv(m) && i in m.spaces && |m.phys| == |m.refs| && present == P.Pte(m, i, vaddr / P.PAGE_SIZE).present
    ensures var r, v, e := P.PageFault(m, i, vaddr, present, write, junk), vaddr / P.PAGE_SIZE, P.Pte(m, i, vaddr / P.PAGE_SIZE);
      if !(P.USER_BASE <= v < P.STACK_TOP) || (present && !write) then r == Halt(AssertFailed)
      else if present then
        && P.HasTable(m, i, v / 1024) && e.index < |m.phys|
        && (m.refs[e.index] == 0 ==> r == Halt(AssertFailed))
        && (m.refs[e.index] == 1 ==> r == Ok(P.SetPte(m, i, v, e.(write := true))))
        && (m.refs[e.index] > 1 && P.CopyPage(m, e.index).Halt? ==> r == Halt(P.CopyPage(m, e.index).why))
        && (forall n :: m.refs[e.index] > 1 && SplitResult(m, i, v, e.index, n) ==> r == Ok(n))
      else if v < m.spaces[i].brk || v >= P.STACK_BOTTOM then r == P.LinkPage(m, i, v, junk)
      else r == Halt(SegFault)
  {
    var v := vaddr / P.PAGE_SIZE;
    if present {
      PresentPage(m, i, v);
    }
    hide Inv, P.CopyPage, P.LinkPage, P.SetPte, P.Pte;
  }

  lemma SlotHasTable(m: P.Mem, i: nat, d: nat)
    requires Core(m) && P.FIRST_USER_PDE <= d < P.SELF_PDE && P.Pde(m, i, d).present
    ensures P.HasTable(m, i, d)
  {
    assert P.Names(m, P.DirSlot(i, d), P.Pde(m, i, d).index);
  }

  lemma {:induction false} DropPagesHalts(m: P.Mem, ptes: P.Entries, t: nat, u: nat)
    requires t <= u <= 1024 && P.DropPages(m, ptes, t).Halt?
    ensures P.DropPages(m, ptes, u) == Halt(P.DropPages(m, ptes, t).why)
  {
    if t < u {
      DropPagesHalts(m, ptes, t, u - 1);
    }
  }

  // The state of copyPde's outer loop: s is what the slots below d lead to, pde the
  // child's directory so far.
  ghost predicate CopyLoop(m0: P.Mem, s: P.Mem, i: nat, c: nat, d: nat, pde: P.Entries) {
    && i in m0.spaces && c in m0.spaces && i != c && P.FIRST_USER_PDE <= d <= P.SELF_PDE && |m0.phys| == |m0.refs|
    && P.CopyTables(m0, i, c, d) == Ok(s) && Copying(s, i, c) && Progress(m0, s, i, c, d) && Copying(m0, i, c)
    && (forall e: nat :: P.FIRST_USER_PDE <= e < P.SELF_PDE ==> !P.Pde(m0, c, e).present)
    && DirsAgree(m0, s, i, c, d, pde)
  }

  ghost predicate DirsAgree(m0: P.Mem, s: P.Mem, i: nat, c: nat, d: nat, pde: P.Entries) {
    && i in m0.spaces && c in s.spaces
    && (forall e | 0 <= e < 1024 ::
          pde[e] == if e < d || e == P.SELF_PDE then s.spaces[c].dir[e] else m0.spaces[i].dir[e])
    && (forall e :: d <= e < P.SELF_PDE ==> s.spaces[c].dir[e] == P.ChildEntry(m0.spaces[i].dir[e], 0, e))
  }

  lemma CopyLoopStart(m0: P.Mem, i: nat, c: nat, self: nat, pde: P.Entries)
    requires Copying(m0, i, c) && m0.spaces[c].dir == P.ChildDir(m0.spaces[i].dir, self)
    requires pde == m0.spaces[i].dir[1023 := P.Entry(true, true, self)]
    requires forall e: nat :: P.FIRST_USER_PDE <= e < P.SELF_PDE ==> !P.Pde(m0, c, e).present
    ensures CopyLoop(m0, m0, i, c, P.FIRST_USER_PDE, pde)
  {
    CopyTablesKeeps(m0, i, c, P.FIRST_USER_PDE);
  }

  lemma CopyLoopFacts(m0: P.Mem, s: P.Mem, i: nat, c: nat, d: nat, pde: P.Entries)
    requires CopyLoop(m0, s, i, c, d, pde) && d < P.SELF_PDE
    ensures Copying(s, i, c) && i in s.spaces && c in s.spaces && s.spaces[i] == m0.spaces[i] && s.start == m0.start
    ensures P.Pde(s, i, d) == m0.spaces[i].dir[d] == pde[d]
    ensures |m0.phys| == |m0.refs| && P.CopyTables(m0, i, c, d) == Ok(s) && i in m0.spaces && c in m0.spaces
  {
  }

  lemma CopyLoopNext(m0: P.Mem, s: P.Mem, s': P.Mem, i: nat, c: nat, d: nat, pde: P.Entries, e: P.Entry)
    requires CopyLoop(m0, s, i, c, d, pde) && d < P.SELF_PDE && pde[d].present
    requires P.CopyTable(s, i, c, d) == Ok(s') && s'.spaces == P.SetPde(s, c, d, e).spaces
    ensures CopyLoop(m0, s', i, c, d + 1, pde[d := e])
  {
    CopyLoopFacts(m0, s, i, c, d, pde);
    DirsAgreeNext(m0, s, s', i, c, d, pde, e);
    hide Progress, Copying, P.CopyTable, DirsAgree, P.Pde;
    CopyTablesKeeps(m0, i, c, d + 1);
  }

  lemma DirsAgreeNext(m0: P.Mem, s: P.Mem, s': P.Mem, i: nat, c: nat, d: nat, pde: P.Entries, e: P.Entry)
    requires DirsAgree(m0, s, i, c, d, pde) && P.FIRST_USER_PDE <= d < P.SELF_PDE && s'.spaces == P.SetPde(s, c, d, e).spaces
    ensures DirsAgree(m0, s', i, c, d + 1, pde[d := e])
  {
    assert s'.spaces[c].dir == s.spaces[c].dir[d := e];
  }

  lemma CopyLoopSkip(m0: P.Mem, s: P.Mem, i: nat, c: nat, d: nat, pde: P.Entries)
    requires CopyLoop(m0, s, i, c, d, pde) && d < P.SELF_PDE && !pde[d].present
    ensures CopyLoop(m0, s, i, c, d + 1, pde)
  {
    CopyLoopFacts(m0, s, i, c, d, pde);
    assert DirsAgree(m0, s, i, c, d + 1, pde) by {
      hide Progress, Copying, P.CopyTables;
    }
    hide Progress, Copying, P.CopyTable, DirsAgree, P.Pde;
    CopyTablesKeeps(m0, i, c, d + 1);
  }

  lemma CopyLoopStops(m: P.Mem, m0: P.Mem, s: P.Mem, i: nat, c: nat, self: nat, d: nat, pde: P.Entries, why: Reason)
    requires CopyLoop(m0, s, i, c, d, pde) && d < P.SELF_PDE && pde[d].present && P.CopyTable(s, i, c, d) == Halt(why)
    requires i in m.spaces && c !in m.spaces && |m.phys| == |m.refs|
    requires m0 == m.(spaces := m.spaces[c := m.spaces[i].(dir := P.ChildDir(m.spaces[i].dir, self))])
    ensures P.Fork(m, i, c, self) == Halt(why)
  {
    CopyLoopFacts(m0, s, i, c, d, pde);
    hide Copying, CopyLoop, P.CopyTable;
    CopyTablesHalts(m0, i, c, d + 1, P.SELF_PDE);
  }

  lemma CopyLoopEnd(m: P.Mem, m0: P.Mem, s: P.Mem, i: nat, c: nat, self: nat, pde: P.Entries)
    requires CopyLoop(m0, s, i, c, P.SELF_PDE, pde) && i in m.spaces && c !in m.spaces && |m.phys| == |m.refs|
    requires m0 == m.(spaces := m.spaces[c := m.spaces[i].(dir := P.ChildDir(m.spaces[i].dir, self))])
    ensures P.Fork(m, i, c, self) == Ok(s) && s.spaces == m.spaces[c := m.spaces[i].(dir := pde)]
    ensures s.start == m.start
  {
    assert s.spaces[c].dir == pde;
    hide Copying, P.CopyTables;
  }

  // A loop that halts half-way is a loop that halts.
  lemma {:induction false} UnlinkRangeHalts(m: P.Mem, i: nat, lo: nat, mid: nat, hi: nat)
    requires i in m.spaces && P.USER_BASE <= lo <= mid <= hi <= P.VIRTUAL_LIMIT && |m.phys| == |m.refs|
    requires P.UnlinkRange(m, i, lo, mid).Halt?
    ensures P.UnlinkRange(m, i, lo, hi) == Halt(P.UnlinkRange(m, i, lo, mid).why)
    decreases hi
  {
    if mid < hi {
      UnlinkRangeHalts(m, i, lo, mid, hi - 1);
    }
  }

  lemma {:induction false} ShareHalts(refs: seq<P.uint8>, ptes: P.Entries, t: nat, u: nat)
    requires t <= u <= 1024 && P.Share(refs, ptes, t).Halt?
    ensures P.Share(refs, ptes, u) == Halt(P.Share(refs, ptes, t).why)
  {
    if t < u {
      ShareHalts(refs, ptes, t, u - 1);
    }
  }

  lemma {:induction false} CopyTablesHalts(m: P.Mem, i: nat, c: nat, d: nat, e: nat)
    requires i in m.spaces && c in m.spaces && P.FIRST_USER_PDE < d <= e <= P.SELF_PDE && |m.phys| == |m.refs|
    requires P.CopyTables(m, i, c, d).Halt?
    ensures P.CopyTables(m, i, c, e) == Halt(P.CopyTables(m, i, c, d).why)
  {
    if d < e {
      CopyTablesHalts(m, i, c, d, e - 1);
    }
  }

  lemma TableReady(m: P.Mem, i: nat, c: nat, d: nat)
    requires Copying(m, i, c) && P.FIRST_USER_PDE <= d < P.SELF_PDE && P.Pde(m, i, d).present
    ensures P.HasTable(m, i, d) && |m.phys| == |m.refs|
    ensures forall k | 0 <= k < 1024 && P.TableOf(m, i, d)[k].present :: P.TableOf(m, i, d)[k].index < |m.refs|
  {
    assert P.Names(m, P.DirSlot(i, d), P.Pde(m, i, d).index);
    TableShareable(m, i, d);
  }

  lemma TableInv(m: P.Mem, n: P.Mem, i: nat, v: nat)
    requires Inv(m) && i in m.spaces && P.USER_BASE <= v < P.VIRTUAL_LIMIT
    requires P.EnsureTable(m, i, v) == Ok(n)
    ensures Inv(n) && P.HasTable(n, i, v / 1024)
  {
    EnsureTableKeeps(m, i, v);
    InvCarries(m, n);
  }

  lemma {:induction false} FirstFreeIs(refs: seq<P.uint8>, start: nat, f: nat)
    requires P.IsFirstFree(refs, start, f)
    ensures P.FirstFree(refs, start) == f
    decreases f - start
  {
    if start < f {
      FirstFreeIs(refs, start + 1, f);
    }
  }
}
