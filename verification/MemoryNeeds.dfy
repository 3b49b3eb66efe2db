/**
 When memory is out: how many free frames each operation on address spaces needs, told
 from the tables before it, and that it stops exactly if there are fewer.
 */
module MemoryNeeds {
  import opened Outcome
  import opened Paging
  import opened PagingInvariant
  import opened ForkExit
  import opened CopyOnWrite

  // The free frames.
  ghost function Spare(m: Mem): nat {
    |Zeros(m.refs)|
  }

  // getPage fails exactly if no frame from startPage on is free, and takes the first one.
  lemma GetPageExactly(m: Mem)
    ensures GetPage(m).Halt? <==> forall p :: m.start <= p < |m.refs| ==> m.refs[p] != 0
    ensures GetPage(m).Halt? ==> GetPage(m).why == OutOfMemory
    ensures GetPage(m).Ok? ==> IsFirstFree(m.refs, m.start, GetPage(m).value.1)
  {
  }

  // The frames below 16 MB are all in use, so that is when there is no free frame at all.
  lemma GetPageHalts(m: Mem)
    requires Core(m)
    ensures GetPage(m).Halt? <==> Spare(m) == 0
    ensures GetPage(m).Halt? ==> GetPage(m).why == OutOfMemory
    ensures GetPage(m).Ok? ==> Spare(GetPage(m).value.0) == Spare(m) - 1
  {
    GetPageExactly(m);
    var z := Zeros(m.refs);
    KernelFramesUsed(m);
    if GetPage(m).Halt? {
      assert z == {};
    } else {
      assert GetPage(m).value.1 in z;
      ZerosAfter(m.refs, GetPage(m).value.1, 1);
    }
  }

  lemma KernelFramesUsed(m: Mem)
    requires Core(m)
    ensures m.start <= KERNEL_FRAMES <= |m.refs| == |m.phys|
    ensures forall p :: 0 <= p < KERNEL_FRAMES ==> m.refs[p] != 0
  {
  }

  // `free` differs from it by a constant, so it tells how it changes.
  lemma SpareBy(m: Mem, n: Mem)
    requires Accounted(m) && Accounted(n) && n.start == m.start
    ensures Spare(n) - Spare(m) == n.free - m.free
  {
    hide Zeros;
  }

  lemma CoreAccounts(m: Mem)
    requires Core(m)
    ensures Accounted(m) && |m.phys| == |m.refs|
  {
  }

  lemma InvAccounts(m: Mem)
    requires Inv(m)
    ensures Core(m) && Accounted(m) && |m.phys| == |m.refs|
  {
  }

  // ---------- a page table ----------

  function TableNeed(m: Mem, i: nat, v: nat): nat {
    if Pde(m, i, v / 1024).present then 0 else 1
  }

  lemma EnsureHalts(m: Mem, i: nat, v: nat)
    requires Core(m) && i in m.spaces && USER_BASE <= v < VIRTUAL_LIMIT && |m.phys| == |m.refs|
    ensures EnsureTable(m, i, v).Halt? <==> Spare(m) < TableNeed(m, i, v)
    ensures EnsureTable(m, i, v).Ok? ==> TableMade(m, EnsureTable(m, i, v).value, i, v)
  {
    GetPageHalts(m);
    EnsureTableKeeps(m, i, v);
    hide Core, Zeros, GetPage, Shape, OneOwner, NoAlias, Counted, WriteSole, Accounted;
    if !Pde(m, i, v / 1024).present && EnsureTable(m, i, v).Ok? {
      MadeTable(m, i, v);
    }
  }

  // The table of page v is there, for one frame if it was not; nothing else has changed.
  ghost predicate TableMade(m: Mem, n: Mem, i: nat, v: nat) {
    && n.start == m.start && Spare(n) == Spare(m) - TableNeed(m, i, v) && |n.refs| == |m.refs|
    && (forall p :: 0 <= p < |m.refs| && m.refs[p] != 0 ==> n.refs[p] == m.refs[p])
    && (forall j: nat, d: nat :: Pde(n, j, d).present <==> Pde(m, j, d).present || (j == i && d == v / 1024))
  }

  lemma MadeTable(m: Mem, i: nat, v: nat)
    requires i in m.spaces && USER_BASE <= v < VIRTUAL_LIMIT && |m.phys| == |m.refs| && !Pde(m, i, v / 1024).present
    requires GetPage(m).Ok? && EnsureTable(m, i, v).Ok? && Spare(GetPage(m).value.0) == Spare(m) - 1
    ensures TableMade(m, EnsureTable(m, i, v).value, i, v)
  {
    hide Zeros, FirstFree;
  }

  // ---------- one page ----------

  function LinkNeed(m: Mem, i: nat, v: nat): nat {
    if Pte(m, i, v).present then 0 else 1 + TableNeed(m, i, v)
  }

  lemma LinkHalts(m: Mem, i: nat, v: nat, junk: Page)
    requires Inv(m) && InRange(m, i, v) && |m.phys| == |m.refs|
    ensures USER_BASE <= v < VIRTUAL_LIMIT && (LinkPage(m, i, v, junk).Halt? <==> Spare(m) < LinkNeed(m, i, v))
  {
    RangeOf(m, i, v);
    EnsureHalts(m, i, v);
    EnsureTableKeeps(m, i, v);
    LinkPageKeeps(m, i, v, junk);
    PresentNeedsNoTable(m, i, v);
    if EnsureTable(m, i, v).Ok? {
      var m1 := EnsureTable(m, i, v).value;
      InvCarries(m, m1);
      if !Pte(m, i, v).present {
        LinkRest(m1, i, v);
        LinkIs(m, m1, i, v, junk);
      } else {
        LinkPresent(m, m1, i, v, junk);
      }
    }
    hide Inv, LinkPage, EnsureTable;
  }

  lemma PresentNeedsNoTable(m: Mem, i: nat, v: nat)
    ensures Pte(m, i, v).present ==> TableNeed(m, i, v) == 0
  {
  }

  lemma LinkPresent(m: Mem, m1: Mem, i: nat, v: nat, junk: Page)
    requires Inv(m1) && i in m.spaces && USER_BASE <= v < STACK_TOP && |m.phys| == |m.refs| && EnsureTable(m, i, v) == Ok(m1)
    requires HasTable(m1, i, v / 1024) && Pte(m1, i, v).present
    ensures LinkPage(m, i, v, junk).Ok?
  {
    assert Mirror(m1, i);
    hide EnsureTable, Pte;
  }

  // Once the table is there linkPage fails exactly if getPage does.
  lemma LinkIs(m: Mem, m1: Mem, i: nat, v: nat, junk: Page)
    requires Inv(m1) && i in m.spaces && USER_BASE <= v < STACK_TOP && |m.phys| == |m.refs| && EnsureTable(m, i, v) == Ok(m1)
    requires HasTable(m1, i, v / 1024) && !Pte(m1, i, v).present
    ensures LinkPage(m, i, v, junk).Halt? <==> GetPage(SetVmap(m1, i, m1.spaces[i].vmap + {v})).Halt?
  {
    assert Mirror(m1, i);
    hide EnsureTable, Pte, GetPage;
  }

  lemma LinkRest(m: Mem, i: nat, v: nat)
    requires Inv(m) && i in m.spaces
    ensures GetPage(SetVmap(m, i, m.spaces[i].vmap + {v})).Halt? <==> Spare(m) == 0
  {
    InvAccounts(m);
    VmapEffect(m, i, m.spaces[i].vmap + {v});
    VmapSet(m, i, m.spaces[i].vmap + {v});
    hide Inv, Core, GetPage;
    GetPageHalts(SetVmap(m, i, m.spaces[i].vmap + {v}));
  }

  // What unlinking page v gives back.
  function Given(m: Mem, i: nat, v: nat): nat {
    if Pte(m, i, v).present && Pte(m, i, v).index < |m.refs| && m.refs[Pte(m, i, v).index] == 1 then 1 else 0
  }

  // After page v was unlinked: one table more if it was missing, one frame back if the
  // page was nobody else's, and the counts of all other frames in use as before.
  ghost predicate PageUnlinked(m: Mem, n: Mem, i: nat, v: nat) {
    && n.start == m.start && Spare(n) == Spare(m) - TableNeed(m, i, v) + Given(m, i, v) && |n.refs| == |m.refs|
    && (forall p :: 0 <= p < |m.refs| && m.refs[p] != 0 && !(Pte(m, i, v).present && p == Pte(m, i, v).index) ==> n.refs[p] == m.refs[p])
    && (forall j: nat, d: nat :: Pde(n, j, d).present <==> Pde(m, j, d).present || (j == i && d == v / 1024))
  }

  lemma UnlinkHalts(m: Mem, i: nat, v: nat)
    requires Inv(m) && i in m.spaces && USER_BASE <= v < VMAP_LIMIT && |m.phys| == |m.refs|
    ensures UnlinkPage(m, i, v).Halt? <==> Spare(m) < TableNeed(m, i, v)
    ensures UnlinkPage(m, i, v).Ok? ==> PageUnlinked(m, UnlinkPage(m, i, v).value, i, v)
  {
    hide *;
    InvAccounts(m);
    BelowVirtual(v);
    EnsureHalts(m, i, v);
    UnlinkPageKeeps(m, i, v);
    EnsureTableKeeps(m, i, v);
    if EnsureTable(m, i, v).Ok? {
      var m1 := EnsureTable(m, i, v).value;
      InvCarries(m, m1);
      InvAccounts(m1);
      if Pte(m, i, v).present {
        UnlinkPresent(m, m1, i, v);
      } else {
        UnlinkMissing(m, m1, i, v);
      }
    } else {
      UnlinkStops(m, i, v);
    }
  }

  lemma BelowVirtual(v: nat)
    requires v < VMAP_LIMIT
    ensures v < VIRTUAL_LIMIT
  {
  }

  lemma UnlinkStops(m: Mem, i: nat, v: nat)
    requires i in m.spaces && USER_BASE <= v < VIRTUAL_LIMIT && |m.phys| == |m.refs| && EnsureTable(m, i, v).Halt?
    ensures UnlinkPage(m, i, v).Halt?
  {
    hide EnsureTable;
  }

  lemma UnlinkMissing(m: Mem, m1: Mem, i: nat, v: nat)
    requires i in m.spaces && USER_BASE <= v < VMAP_LIMIT && v < VIRTUAL_LIMIT && |m.phys| == |m.refs| && EnsureTable(m, i, v) == Ok(m1)
    requires Inv(m1) && i in m1.spaces && HasTable(m1, i, v / 1024) && !Pte(m1, i, v).present && !Pte(m, i, v).present
    requires TableMade(m, m1, i, v) && UnlinkPage(m, i, v).Ok?
    ensures PageUnlinked(m, UnlinkPage(m, i, v).value, i, v)
  {
    assert Mirror(m1, i);
    hide EnsureTable, Pte, Pde, Zeros, Inv, HasTable;
  }

  lemma UnlinkPresent(m: Mem, m1: Mem, i: nat, v: nat)
    requires i in m.spaces && USER_BASE <= v < VMAP_LIMIT && v < VIRTUAL_LIMIT && |m.phys| == |m.refs| && EnsureTable(m, i, v) == Ok(m1)
    requires Inv(m1) && Core(m1) && i in m1.spaces && HasTable(m1, i, v / 1024) && Pte(m1, i, v) == Pte(m, i, v) && Pte(m, i, v).present
    requires TableMade(m, m1, i, v) && UnlinkPage(m, i, v).Ok? && Inv(UnlinkPage(m, i, v).value)
    ensures PageUnlinked(m, UnlinkPage(m, i, v).value, i, v)
  {
    hide *;
    var n := UnlinkPage(m, i, v).value;
    InvIs(m1);
    DataFrame(m1, i, v);
    NamedCounts(m1, PteSlot(i, v), Pte(m1, i, v).index);
    PresentNeedsNoTable(m, i, v);
    NothingMade(m, m1, i, v);
    UnlinkIs(m, m1, i, v);
    SetPteEffect(m1, i, v, Pte(m1, i, v).(present := false));
    SetPteKeeps(m1, i, v, Pte(m1, i, v).(present := false));
    InvAccounts(m1);
    InvAccounts(n);
    SpareBy(m1, n);
    FrameGivenBack(m, m1, n, i, v);
  }

  lemma NothingMade(m: Mem, m1: Mem, i: nat, v: nat)
    requires Pte(m, i, v).present && i in m.spaces && USER_BASE <= v < VIRTUAL_LIMIT && |m.phys| == |m.refs| && EnsureTable(m, i, v) == Ok(m1)
    ensures m1 == m
  {
  }

  // unlinkPage of a present page.
  lemma UnlinkIs(m: Mem, m1: Mem, i: nat, v: nat)
    requires i in m.spaces && USER_BASE <= v < VIRTUAL_LIMIT && |m.phys| == |m.refs| && EnsureTable(m, i, v) == Ok(m1)
    requires i in m1.spaces && HasTable(m1, i, v / 1024) && Pte(m1, i, v).present && UnlinkPage(m, i, v).Ok?
    ensures var e := Pte(m1, i, v); var n := UnlinkPage(m, i, v).value; var k := SetPte(m1, i, v, e.(present := false));
      && e.index < |m1.refs| && m1.refs[e.index] >= 1 && n.refs == m1.refs[e.index := m1.refs[e.index] - 1]
      && n.free == m1.free + (if m1.refs[e.index] == 1 then 1 else 0) && n.start == m1.start
      && forall j: nat, d: nat :: Pde(n, j, d) == Pde(k, j, d)
  {
    hide EnsureTable, Pte;
  }

  lemma FrameGivenBack(m: Mem, m1: Mem, n: Mem, i: nat, v: nat)
    requires m1 == m && Pte(m, i, v).present && TableNeed(m, i, v) == 0 && TableMade(m, m1, i, v)
    requires var e := Pte(m, i, v);
      && e.index < |m.refs| && m.refs[e.index] >= 1 && n.refs == m.refs[e.index := m.refs[e.index] - 1]
      && n.free == m.free + (if m.refs[e.index] == 1 then 1 else 0) && n.start == m.start
    requires forall j: nat, d: nat :: Pde(n, j, d) == Pde(m, j, d)
    requires Spare(n) - Spare(m) == n.free - m.free
    ensures PageUnlinked(m, n, i, v)
  {
    hide Pte, Pde, Zeros;
  }

  // ---------- an access ----------

  // 0, 1 or 2 frames: a copy of a shared page, a missing page, a table for it.
  function TouchNeed(m: Mem, i: nat, v: nat, write: bool): nat {
    var e := Pte(m, i, v);
    if !e.present then 1 + TableNeed(m, i, v)
    else if write && !e.write && e.index < |m.refs| && m.refs[e.index] > 1 then 1
    else 0
  }

  lemma TouchHalts(m: Mem, i: nat, vaddr: nat, write: bool, junk: Page)
    requires Inv(m) && InRange(m, i, vaddr / PAGE_SIZE) && |m.phys| == |m.refs|
    ensures Touch(m, i, vaddr, write, junk).Halt? <==> Spare(m) < TouchNeed(m, i, vaddr / PAGE_SIZE, write)
  {
    var v := vaddr / PAGE_SIZE;
    hide *;
    if Pte(m, i, v).present {
      RangeOf(m, i, v);
      PresentPage(m, i, v);
      InvAccounts(m);
      NamedCounts(m, PteSlot(i, v), Pte(m, i, v).index);
      TableCounted(m, i, v);
      GetPageHalts(m);
      TouchedPresent(m, i, vaddr, write, junk);
    } else {
      LinkHalts(m, i, v, junk);
      RangeOf(m, i, v);
      TouchedMissing(m, i, vaddr, write, junk);
    }
  }

  lemma TouchedPresent(m: Mem, i: nat, vaddr: nat, write: bool, junk: Page)
    requires i in m.spaces && |m.phys| == |m.refs| && USER_BASE <= vaddr / PAGE_SIZE < STACK_TOP
    requires var e := Pte(m, i, vaddr / PAGE_SIZE);
      && e.present && HasTable(m, i, vaddr / PAGE_SIZE / 1024) && KERNEL_FRAMES <= e.index < |m.refs| && m.refs[e.index] >= 1
    requires var t := Pde(m, i, vaddr / PAGE_SIZE / 1024).index; t < |m.refs| && m.refs[t] != 0
    requires GetPage(m).Halt? <==> Spare(m) == 0
    ensures Touch(m, i, vaddr, write, junk).Halt? <==> Spare(m) < TouchNeed(m, i, vaddr / PAGE_SIZE, write)
  {
    var e := Pte(m, i, vaddr / PAGE_SIZE);
    if write && !e.write && m.refs[e.index] > 1 && GetPage(m).Ok? {
      CopiedOk(m, i, vaddr / PAGE_SIZE, e.index);
    }
    hide Pte, LinkPage, Zeros, SetPte, FirstFree;
  }

  lemma TableCounted(m: Mem, i: nat, v: nat)
    requires Core(m) && HasTable(m, i, v / 1024) && USER_BASE <= v < STACK_TOP
    ensures var t := Pde(m, i, v / 1024).index; t < |m.refs| && m.refs[t] != 0
  {
    assert Names(m, DirSlot(i, v / 1024), Pde(m, i, v / 1024).index);
    NamedCounts(m, DirSlot(i, v / 1024), Pde(m, i, v / 1024).index);
  }

  // The copy goes to a frame that was free, so neither the table nor the count is touched.
  lemma CopiedOk(m: Mem, i: nat, v: nat, p: nat)
    requires |m.phys| == |m.refs| && p < |m.refs| && m.refs[p] > 1 && GetPage(m).Ok? && HasTable(m, i, v / 1024)
    requires var t := Pde(m, i, v / 1024).index; t < |m.refs| && m.refs[t] != 0
    ensures CopyPage(m, p).Ok? && var m1 := CopyPage(m, p).value.0; |m1.refs| == |m.refs| && m1.refs[p] == m.refs[p] && HasTable(m1, i, v / 1024)
  {
    GetPageExactly(m);
    hide FirstFree;
  }

  lemma TouchedMissing(m: Mem, i: nat, vaddr: nat, write: bool, junk: Page)
    requires i in m.spaces && |m.phys| == |m.refs| && USER_BASE <= vaddr / PAGE_SIZE < STACK_TOP
    requires InRange(m, i, vaddr / PAGE_SIZE) && !Pte(m, i, vaddr / PAGE_SIZE).present && vaddr / PAGE_SIZE < VIRTUAL_LIMIT
    requires LinkPage(m, i, vaddr / PAGE_SIZE, junk).Halt? <==> Spare(m) < LinkNeed(m, i, vaddr / PAGE_SIZE)
    ensures Touch(m, i, vaddr, write, junk).Halt? <==> Spare(m) < TouchNeed(m, i, vaddr / PAGE_SIZE, write)
  {
    hide Pte, LinkPage, Zeros;
  }

  // ---------- fork ----------

  // The user page tables in slots below d.
  function UserTables(m: Mem, i: nat, d: nat): nat {
    if d <= FIRST_USER_PDE then 0 else UserTables(m, i, d - 1) + if Pde(m, i, d - 1).present then 1 else 0
  }

  // Sharing pages makes no frame free and takes none; the copy of the table takes one.
  lemma CopyTableHalts(m: Mem, i: nat, c: nat, d: nat)
    requires Copying(m, i, c) && FIRST_USER_PDE <= d < SELF_PDE && Pde(m, i, d).present && !Pde(m, c, d).present
    ensures |m.phys| == |m.refs| && i in m.spaces && c in m.spaces
    ensures CopyTable(m, i, c, d).Halt? <==> Spare(m) == 0
    ensures CopyTable(m, i, c, d).Ok? ==> Spare(CopyTable(m, i, c, d).value) == Spare(m) - 1
  {
    hide *;
    CopyingParts(m, i, c);
    SmallSlot(d);
    SlotTable(m, i, d);
    CopyTableEffect(m, i, c, d);
    TableShareable(m, i, d);
    ShareWorks(m.refs, TableOf(m, i, d), 1024);
    SharedZeros(m, Share(m.refs, TableOf(m, i, d), 1024).value, TableOf(m, i, d));
    CopyTableIs(m, i, c, d);
    FreeFrameIn(m, Share(m.refs, TableOf(m, i, d), 1024).value);
    if CopyTable(m, i, c, d).Ok? {
      var n := CopyTable(m, i, c, d).value;
      var f: nat :| Copied(m, n, i, c, d, f) && CopiedFrames(m, n, i, d, f) && Accounted(n);
      CopiedFree(m, n, i, c, d, f);
      CoreAccounts(m);
      SpareBy(m, n);
    }
  }

  lemma SmallSlot(d: nat)
    requires d < SELF_PDE
    ensures d < 1024
  {
  }

  lemma CopyingParts(m: Mem, i: nat, c: nat)
    requires Copying(m, i, c)
    ensures Core(m) && |m.phys| == |m.refs| && i in m.spaces && c in m.spaces && i != c && 0 < |m.spaces| <= NR_TASKS
  {
    hide Core, Mirrors;
  }

  lemma SlotTable(m: Mem, i: nat, d: nat)
    requires Core(m) && i in m.spaces && FIRST_USER_PDE <= d < SELF_PDE && Pde(m, i, d).present
    ensures HasTable(m, i, d) && m.start <= KERNEL_FRAMES
  {
    assert Names(m, DirSlot(i, d), Pde(m, i, d).index);
  }

  lemma CopiedFree(m: Mem, n: Mem, i: nat, c: nat, d: nat, f: nat)
    requires Copied(m, n, i, c, d, f)
    ensures n.free == m.free - 1 && n.start == m.start
  {
    hide Pte, Pde;
  }

  lemma SharedZeros(m: Mem, refs: seq<uint8>, ptes: Entries)
    requires |refs| == |m.refs|
    requires forall k | 0 <= k < 1024 && ptes[k].present :: ptes[k].index < |m.refs| && 1 <= m.refs[ptes[k].index]
    requires forall p: nat | p < |m.refs| :: refs[p] as int == m.refs[p] as int + (if Among(ptes, 1024, p) then 1 else 0)
    ensures forall p :: 0 <= p < |refs| ==> (refs[p] == 0 <==> m.refs[p] == 0)
  {
  }

  lemma FreeFrameIn(m: Mem, refs: seq<uint8>)
    requires Core(m) && |refs| == |m.refs| && forall p :: 0 <= p < |refs| ==> (refs[p] == 0 <==> m.refs[p] == 0)
    ensures FirstFree(refs, m.start) < |refs| <==> Spare(m) > 0
  {
    KernelFramesUsed(m);
    var z, f := Zeros(m.refs), FirstFree(refs, m.start);
    if f < |refs| {
      assert f in z;
    } else {
      assert z == {};
    }
  }

  lemma CopyTableIs(m: Mem, i: nat, c: nat, d: nat)
    requires HasTable(m, i, d) && c in m.spaces && d < 1024 && |m.phys| == |m.refs|
    requires Share(m.refs, TableOf(m, i, d), 1024).Ok?
    ensures CopyTable(m, i, c, d).Halt? <==>
      FirstFree(Share(m.refs, TableOf(m, i, d), 1024).value, m.start) >= |m.refs|
  {
    hide Share, FirstFree, TableOf, AllReadOnly;
  }

  lemma {:induction false} CopyTablesNeed(m: Mem, i: nat, c: nat, d: nat)
    requires Copying(m, i, c) && FIRST_USER_PDE <= d <= SELF_PDE && |m.phys| == |m.refs| && i in m.spaces && c in m.spaces
    requires forall e: nat :: FIRST_USER_PDE <= e < SELF_PDE ==> !Pde(m, c, e).present
    ensures CopyTables(m, i, c, d).Halt? <==> Spare(m) < UserTables(m, i, d)
    ensures CopyTables(m, i, c, d).Ok? ==> Spare(CopyTables(m, i, c, d).value) == Spare(m) - UserTables(m, i, d)
  {
    hide Core, Mirrors, Zeros, CopyTable, Copying, Progress, Pde;
    if d > FIRST_USER_PDE {
      CopyTablesNeed(m, i, c, d - 1);
      CopyTablesKeeps(m, i, c, d - 1);
      if CopyTables(m, i, c, d - 1).Ok? {
        var m1 := CopyTables(m, i, c, d - 1).value;
        SameSlots(m, m1, i, c, d - 1);
        if Pde(m, i, d - 1).present {
          CopyTableHalts(m1, i, c, d - 1);
        }
      }
    }
  }

  // What copyPde has not reached yet is as it was.
  lemma SameSlots(m: Mem, n: Mem, i: nat, c: nat, d: nat)
    requires Copying(m, i, c) && Progress(m, n, i, c, d) && FIRST_USER_PDE <= d < SELF_PDE
    ensures Pde(n, i, d) == Pde(m, i, d) && !Pde(n, c, d).present
  {
    hide Core, Mirrors, SameData, Pte;
  }

  lemma ForkHalts(m: Mem, i: nat, c: nat, self: nat)
    requires Inv(m) && i in m.spaces && c !in m.spaces && |m.spaces| < NR_TASKS && |m.phys| == |m.refs|
    ensures Fork(m, i, c, self).Halt? <==> Spare(m) < UserTables(m, i, SELF_PDE)
  {
    var m0 := m.(spaces := m.spaces[c := m.spaces[i].(dir := ChildDir(m.spaces[i].dir, self))]);
    NewDirectory(m, m0, i, c, self);
    hide Inv, CopyTables, Copying, Zeros, Pde, Pte;
    CopyTablesNeed(m0, i, c, SELF_PDE);
    SameTables(m, m0, i, SELF_PDE);
  }

  lemma {:induction false} SameTables(m: Mem, n: Mem, i: nat, d: nat)
    requires forall e: nat :: Pde(n, i, e) == Pde(m, i, e)
    ensures UserTables(n, i, d) == UserTables(m, i, d)
  {
    hide Pde;
    if d > FIRST_USER_PDE {
      SameTables(m, n, i, d - 1);
    }
  }

  // ---------- brk ----------

  // A table that unlinking the pages lo..w makes when it comes to page w: page w is the
  // first of its table among them, and the table is missing.
  function Makes(m: Mem, i: nat, lo: nat, w: nat): nat {
    if w == lo || w % 1024 == 0 then TableNeed(m, i, w) else 0
  }

  // The tables made, and the frames given back, for the pages lo..hi.
  function AllMade(m: Mem, i: nat, lo: nat, hi: nat): nat {
    if hi <= lo then 0 else AllMade(m, i, lo, hi - 1) + Makes(m, i, lo, hi - 1)
  }

  function AllGiven(m: Mem, i: nat, lo: nat, hi: nat): nat {
    if hi <= lo then 0 else AllGiven(m, i, lo, hi - 1) + Given(m, i, hi - 1)
  }

  // The frames that have to be free before: the largest number by which the tables made so
  // far exceed the frames given back before.
  function RangeNeed(m: Mem, i: nat, lo: nat, hi: nat): nat {
    if hi <= lo then 0
    else
      var before, here := RangeNeed(m, i, lo, hi - 1), AllMade(m, i, lo, hi) - AllGiven(m, i, lo, hi - 1);
      if Makes(m, i, lo, hi - 1) > 0 && here > before then here else before
  }

  ghost predicate RangeUnlinked(m: Mem, n: Mem, i: nat, lo: nat, hi: nat) {
    && n.start == m.start && |n.refs| == |m.refs| == |n.phys| && i in n.spaces
    && Spare(n) == Spare(m) - AllMade(m, i, lo, hi) + AllGiven(m, i, lo, hi)
    && (forall w: nat :: hi <= w && Pte(m, i, w).present ==>
          Pte(m, i, w).index < |m.refs| && n.refs[Pte(m, i, w).index] == m.refs[Pte(m, i, w).index])
    && (forall d: nat :: Pde(n, i, d).present <==> Pde(m, i, d).present || (lo < hi && lo / 1024 <= d <= (hi - 1) / 1024))
  }

  lemma {:induction false} RangeHalts(m: Mem, i: nat, lo: nat, hi: nat)
    requires Inv(m) && i in m.spaces && USER_BASE <= lo <= hi <= VMAP_LIMIT && |m.phys| == |m.refs|
    ensures UnlinkRange(m, i, lo, hi).Halt? <==> Spare(m) < RangeNeed(m, i, lo, hi)
    ensures UnlinkRange(m, i, lo, hi).Ok? ==> RangeUnlinked(m, UnlinkRange(m, i, lo, hi).value, i, lo, hi)
    decreases hi
  {
    hide *;
    if lo < hi {
      RangeHalts(m, i, lo, hi - 1);
      UnlinkRangeKeeps(m, i, lo, hi - 1);
      RangeLast(m, i, lo, hi);
      if UnlinkRange(m, i, lo, hi - 1).Ok? {
        var m1 := UnlinkRange(m, i, lo, hi - 1).value;
        RangeFacts(m, m1, i, lo, hi - 1);
        UnlinkHalts(m1, i, hi - 1);
        OneMoreNeed(m, m1, i, lo, hi);
        UnlinkPageKeeps(m1, i, hi - 1);
        if UnlinkPage(m1, i, hi - 1).Ok? {
          OneMorePage(m, m1, UnlinkPage(m1, i, hi - 1).value, i, lo, hi);
        }
      }
    } else {
      RangeEmpty(m, i, lo);
    }
  }

  lemma RangeEmpty(m: Mem, i: nat, lo: nat)
    requires Inv(m) && i in m.spaces && USER_BASE <= lo <= VMAP_LIMIT && |m.phys| == |m.refs|
    ensures lo <= VIRTUAL_LIMIT && UnlinkRange(m, i, lo, lo) == Ok(m) && RangeNeed(m, i, lo, lo) == 0 && RangeUnlinked(m, m, i, lo, lo)
  {
    forall w: nat | Pte(m, i, w).present ensures Pte(m, i, w).index < |m.refs| {
      PresentPage(m, i, w);
    }
    hide Inv, Pte, Pde;
  }

  lemma RangeLast(m: Mem, i: nat, lo: nat, hi: nat)
    requires i in m.spaces && USER_BASE <= lo < hi <= VMAP_LIMIT && |m.phys| == |m.refs|
    ensures hi <= VIRTUAL_LIMIT
    ensures var r := UnlinkRange(m, i, lo, hi - 1);
      UnlinkRange(m, i, lo, hi) == if r.Halt? then r else UnlinkPage(r.value, i, hi - 1)
    ensures RangeNeed(m, i, lo, hi) >= RangeNeed(m, i, lo, hi - 1)
  {
    hide UnlinkPage, Makes, Given;
  }

  lemma RangeFacts(m: Mem, m1: Mem, i: nat, lo: nat, hi: nat)
    requires Unlinked(m, m1, i, lo, hi) && Inv(m1) && i in m.spaces && USER_BASE <= lo <= hi < VMAP_LIMIT
    ensures i in m1.spaces && |m1.phys| == |m1.refs| && hi < VIRTUAL_LIMIT && USER_BASE <= hi
    ensures forall w: nat :: hi <= w ==> Pte(m1, i, w) == Pte(m, i, w)
  {
    hide Sees, Pte, Inv;
    InvAccounts(m1);
  }

  // What page hi - 1 needs after the pages before it.
  lemma OneMoreNeed(m: Mem, m1: Mem, i: nat, lo: nat, hi: nat)
    requires lo < hi && RangeUnlinked(m, m1, i, lo, hi - 1)
    requires forall w: nat :: hi - 1 <= w ==> Pte(m1, i, w) == Pte(m, i, w)
    ensures TableNeed(m1, i, hi - 1) == Makes(m, i, lo, hi - 1) && Given(m1, i, hi - 1) == Given(m, i, hi - 1)
    ensures Spare(m) >= RangeNeed(m, i, lo, hi - 1) ==>
      (Spare(m1) < TableNeed(m1, i, hi - 1) <==> Spare(m) < RangeNeed(m, i, lo, hi))
  {
    hide Pte, Zeros;
    assert Pde(m1, i, (hi - 1) / 1024).present <==> Pde(m, i, (hi - 1) / 1024).present || (lo < hi - 1 && (hi - 1) % 1024 != 0);
    hide Pde;
  }

  lemma OneMorePage(m: Mem, m1: Mem, n: Mem, i: nat, lo: nat, hi: nat)
    requires lo < hi && RangeUnlinked(m, m1, i, lo, hi - 1) && PageUnlinked(m1, n, i, hi - 1) && Inv(m1) && Inv(n) && i in n.spaces && i in m1.spaces
    requires forall w: nat :: hi - 1 <= w ==> Pte(m1, i, w) == Pte(m, i, w)
    requires TableNeed(m1, i, hi - 1) == Makes(m, i, lo, hi - 1) && Given(m1, i, hi - 1) == Given(m, i, hi - 1)
    ensures RangeUnlinked(m, n, i, lo, hi)
  {
    InvAccounts(n);
    LaterCounts(m, m1, n, i, hi);
    hide Inv, Pte, Zeros, Given, Makes, TableNeed;
    forall d: nat ensures Pde(n, i, d).present <==> Pde(m, i, d).present || lo / 1024 <= d <= (hi - 1) / 1024 {
      assert Pde(n, i, d).present <==> Pde(m1, i, d).present || d == (hi - 1) / 1024;
    }
    hide Pde;
  }

  // The frames of later pages are neither this page's nor free.
  lemma LaterCounts(m: Mem, m1: Mem, n: Mem, i: nat, hi: nat)
    requires hi > 0 && Inv(m1) && i in m1.spaces && PageUnlinked(m1, n, i, hi - 1)
    requires forall w: nat :: hi - 1 <= w ==> Pte(m1, i, w) == Pte(m, i, w)
    requires |m1.refs| == |m.refs|
    requires forall w: nat :: hi - 1 <= w && Pte(m, i, w).present ==>
               Pte(m, i, w).index < |m.refs| && m1.refs[Pte(m, i, w).index] == m.refs[Pte(m, i, w).index]
    ensures forall w: nat :: hi <= w && Pte(m, i, w).present ==>
              Pte(m, i, w).index < |m.refs| && n.refs[Pte(m, i, w).index] == m.refs[Pte(m, i, w).index]
  {
    forall w: nat | hi <= w && Pte(m, i, w).present
      ensures Pte(m, i, w).index < |m.refs| && n.refs[Pte(m, i, w).index] == m.refs[Pte(m, i, w).index]
    {
      LaterCount(m1, n, i, hi - 1, w);
    }
  }

  lemma LaterCount(m: Mem, n: Mem, i: nat, v: nat, w: nat)
    requires Inv(m) && i in m.spaces && PageUnlinked(m, n, i, v) && Pte(m, i, w).present && v != w
    ensures Pte(m, i, w).index < |m.refs| == |n.refs| && n.refs[Pte(m, i, w).index] == m.refs[Pte(m, i, w).index]
  {
    PresentPage(m, i, w);
    NamedCounts(m, PteSlot(i, w), Pte(m, i, w).index);
    if Pte(m, i, v).present {
      PresentPage(m, i, v);
      assert Names(m, PteSlot(i, v), Pte(m, i, v).index);
    }
  }

  // Growing needs no frame, and is refused exactly if the distance exceeds freePages.
  lemma BrkExactly(m: Mem, i: nat, addr: nat)
    requires Inv(m) && i in m.spaces && |m.phys| == |m.refs|
    requires addr % PAGE_SIZE == 0 && USER_BASE <= addr / PAGE_SIZE < STACK_BOTTOM
    ensures var page, brk := addr / PAGE_SIZE, m.spaces[i].brk;
      && (Brk(m, i, addr).Halt? <==> page < brk && Spare(m) < RangeNeed(m, i, page, brk))
      && (Brk(m, i, addr).Ok? ==> Brk(m, i, addr).value.1 == if page > brk && page - brk > m.free then -1 else 0)
  {
    var page := addr / PAGE_SIZE;
    NothingAbove(m, i);
    NothingMore(m);
    hide Inv, UnlinkRange, Pte, RangeNeed, Zeros, SetBrk;
    if page < m.spaces[i].brk {
      RangeHalts(m, i, page, m.spaces[i].brk);
    }
  }

  lemma NothingMore(m: Mem)
    requires Inv(m)
    ensures m.free >= 0
  {
    hide Zeros;
  }

  // ---------- every request ----------

  // The free frames a legal request needs.
  function FramesNeeded(m: Mem, cmd: Command): nat {
    match cmd
    case DoStart(i, self) => 0
    case DoLoad(i, vaddr, junk) => TouchNeed(m, i, vaddr / PAGE_SIZE, false)
    case DoStore(i, vaddr, b, junk) => TouchNeed(m, i, vaddr / PAGE_SIZE, true)
    case DoBrk(i, addr) => if i in m.spaces then RangeNeed(m, i, addr / PAGE_SIZE, m.spaces[i].brk) else 0
    case DoFork(i, c, self) => UserTables(m, i, SELF_PDE)
    case DoExit(i) => 0
  }

  // The kernel stops exactly on an illegal request, or if fewer frames are free than the
  // request needs.
  lemma HaltsExactlyWhen(m: Mem, cmd: Command)
    requires Inv(m) && |m.phys| == |m.refs|
    ensures Step(m, cmd).Halt? <==> !Legal(m, cmd) || Spare(m) < FramesNeeded(m, cmd)
  {
    hide Inv, Zeros, Touch, TouchNeed, RangeNeed, UserTables, Fork, Brk, Exit, Pte;
    if !Legal(m, cmd) {
      HaltsExactlyWhenIllegal(m, cmd);
    } else {
      match cmd
      case DoStart(i, self) =>
      case DoLoad(i, vaddr, junk) => TouchHalts(m, i, vaddr, false, junk); TouchKeeps(m, i, vaddr, false, junk);
      case DoStore(i, vaddr, b, junk) => TouchHalts(m, i, vaddr, true, junk); TouchKeeps(m, i, vaddr, true, junk);
      case DoBrk(i, addr) => BrkExactly(m, i, addr); NoRange(m, i, addr / PAGE_SIZE);
      case DoFork(i, c, self) => ForkHalts(m, i, c, self);
      case DoExit(i) => ExitKeeps(m, i);
    }
  }

  lemma NoRange(m: Mem, i: nat, page: nat)
    requires i in m.spaces
    ensures page >= m.spaces[i].brk ==> RangeNeed(m, i, page, m.spaces[i].brk) == 0
  {
  }
}
