/**
 What fork, exit and brk do to the tables as a whole: copyPde, freePde and
 sysBrk of src/kernel/memory.cpp keep the invariant, their asserts never fail,
 and an exit of the child undoes a fork.
 */
module ForkExit {
  import opened Outcome
  import opened Paging
  import opened PagingInvariant

  // ---------- freePde ----------

  // Entry k of some table, among the first t, names frame p.
  ghost predicate Among(ptes: Entries, t: int, p: nat) {
    exists k :: 0 <= k < t <= 1024 && ptes[k].present && ptes[k].index == p
  }

  ghost predicate Distinct(ptes: Entries) {
    forall k, l | 0 <= k < 1024 && 0 <= l < 1024 && ptes[k].present && ptes[l].present ::
      ptes[k].index == ptes[l].index ==> k == l
  }

  // The frames named by one table: in range, in use, and pairwise distinct.
  ghost predicate Droppable(m: Mem, ptes: Entries) {
    && Distinct(ptes)
    && (forall k :: 0 <= k < 1024 && ptes[k].present ==>
          KERNEL_FRAMES <= ptes[k].index < |m.refs| && m.refs[ptes[k].index] >= 1)
    && Accounted(m)
    && (forall q :: 0 <= q < KERNEL_FRAMES ==> q < |m.refs| && m.refs[q] == 1)
  }

  lemma {:induction false} DropPagesWorks(m: Mem, ptes: Entries, t: nat)
    requires Droppable(m, ptes) && t <= 1024
    ensures DropPages(m, ptes, t).Ok?
    ensures var n := DropPages(m, ptes, t).value;
      && n == m.(refs := n.refs, free := n.free) && |n.refs| == |m.refs| && Accounted(n)
      && forall p :: 0 <= p < |m.refs| ==> n.refs[p] as int == m.refs[p] as int - (if Among(ptes, t, p) then 1 else 0)
  {
    if t > 0 {
      DropPagesWorks(m, ptes, t - 1);
      var n := DropPages(m, ptes, t - 1).value;
      var e := ptes[t - 1];
      forall p: nat ensures Among(ptes, t, p) <==> Among(ptes, t - 1, p) || (e.present && e.index == p) {
        assert e.present && e.index == p ==> Among(ptes, t, p);
      }
      if e.present {
        assert !Among(ptes, t - 1, e.index);
        PutPageWorks(n, e.index);
      }
    }
  }

  // The entries of the table in slot d are the pages of process i with v / 1024 == d.
  lemma TableEntry(m: Mem, i: nat, d: nat, k: nat)
    requires HasTable(m, i, d) && FIRST_USER_PDE <= d < SELF_PDE && k < 1024
    ensures TableOf(m, i, d)[k] == Pte(m, i, d * 1024 + k) && (d * 1024 + k) / 1024 == d
  {
    assert (d * 1024 + k) % 1024 == k;
  }

  lemma TableDroppable(m: Mem, i: nat, d: nat)
    requires Core(m) && HasTable(m, i, d) && FIRST_USER_PDE <= d < SELF_PDE
    ensures Droppable(m, TableOf(m, i, d))
  {
    var ptes := TableOf(m, i, d);
    forall k | 0 <= k < 1024 && ptes[k].present
      ensures KERNEL_FRAMES <= ptes[k].index < |m.refs| && m.refs[ptes[k].index] >= 1
    {
      TableEntry(m, i, d, k);
      NamedCounts(m, PteSlot(i, d * 1024 + k), ptes[k].index);
    }
    TableDistinct(m, i, d);
  }

  lemma TableDistinct(m: Mem, i: nat, d: nat)
    requires NoAlias(m) && HasTable(m, i, d) && FIRST_USER_PDE <= d < SELF_PDE
    ensures Distinct(TableOf(m, i, d))
  {
    var ptes := TableOf(m, i, d);
    forall k, l | 0 <= k < 1024 && 0 <= l < 1024 && ptes[k].present && ptes[l].present
      ensures ptes[k].index == ptes[l].index ==> k == l
    {
      TableEntry(m, i, d, k);
      TableEntry(m, i, d, l);
      hide Pte, TableOf;
      assert Names(m, PteSlot(i, d * 1024 + k), ptes[k].index);
      assert Names(m, PteSlot(i, d * 1024 + l), ptes[l].index);
    }
  }

  lemma AmongIsNamed(m: Mem, i: nat, d: nat, p: nat)
    requires HasTable(m, i, d) && FIRST_USER_PDE <= d < SELF_PDE
    ensures Among(TableOf(m, i, d), 1024, p) <==> exists v: nat :: v / 1024 == d && Names(m, PteSlot(i, v), p)
  {
    var ptes := TableOf(m, i, d);
    if Among(ptes, 1024, p) {
      var k :| 0 <= k < 1024 && ptes[k].present && ptes[k].index == p;
      TableEntry(m, i, d, k);
      assert Names(m, PteSlot(i, d * 1024 + k), p);
    }
    if v: nat :| v / 1024 == d && Names(m, PteSlot(i, v), p) {
      assert ptes[v % 1024].present && ptes[v % 1024].index == p;
    }
  }

  // Slots that disappear with table d of process i.
  predicate InTable(s: Slot, i: nat, d: nat) {
    match s
    case DirSlot(j, e) => j == i && e == d
    case PteSlot(j, v) => j == i && v / 1024 == d
  }

  // n is m without table d of process i: its slots are gone, the counters adjusted.
  ghost predicate Removed(m: Mem, n: Mem, i: nat, d: nat) {
    && n.phys == m.phys && n.start == m.start && |n.refs| == |m.refs|
    && (forall s, p: nat :: Names(n, s, p) <==> Names(m, s, p) && !InTable(s, i, d))
    && (forall p: nat :: p < |m.refs| ==>
          n.refs[p] as int == m.refs[p] as int - (if exists s :: Names(m, s, p) && InTable(s, i, d) then 1 else 0))
  }

  lemma RemovedCore(m: Mem, n: Mem, i: nat, d: nat)
    requires Core(m) && Removed(m, n, i, d) && Accounted(n)
    requires forall j: nat, w: nat :: Pte(n, j, w).present ==> Pte(n, j, w) == Pte(m, j, w)
    ensures Core(n)
  {
    RemovedCounted(m, n, i, d);
    RemovedSole(m, n, i, d);
  }

  lemma RemovedCounted(m: Mem, n: Mem, i: nat, d: nat)
    requires Core(m) && Removed(m, n, i, d)
    ensures Counted(n)
  {
    forall p | KERNEL_FRAMES <= p < |n.refs| ensures n.refs[p] == |Refs(n, p)| {
      RemovedCount(m, n, i, d, p);
    }
    forall p | 0 <= p < KERNEL_FRAMES ensures n.refs[p] == 1 {
      assert forall s :: !Names(m, s, p);
    }
  }

  lemma RemovedCount(m: Mem, n: Mem, i: nat, d: nat, p: nat)
    requires Core(m) && Removed(m, n, i, d) && KERNEL_FRAMES <= p < |n.refs|
    ensures n.refs[p] == |Refs(n, p)|
  {
    var before, after := Refs(m, p), Refs(n, p);
    if s :| Names(m, s, p) && InTable(s, i, d) {
      forall t | t != s ensures t in before <==> t in after {
        if Names(m, t, p) && InTable(t, i, d) {
          OneInTable(m, s, t, i, d, p);
        }
      }
      hide Shape, OneOwner, NoAlias, WriteSole, Accounted;
      OneElement(before, after, s);
    } else {
      hide Shape, OneOwner, NoAlias, WriteSole, Accounted;
      assert before == after;
    }
  }

  // No frame is named twice from within one table and its directory slot.
  lemma OneInTable(m: Mem, s: Slot, t: Slot, i: nat, d: nat, p: nat)
    requires Core(m) && Names(m, s, p) && Names(m, t, p) && InTable(s, i, d) && InTable(t, i, d)
    ensures s == t
  {
    assert s.DirSlot? ==> m.phys[p].Table?;
    assert t.DirSlot? ==> m.phys[p].Table?;
  }

  lemma RemovedSole(m: Mem, n: Mem, i: nat, d: nat)
    requires Core(m) && Removed(m, n, i, d)
    requires forall j: nat, w: nat :: Pte(n, j, w).present ==> Pte(n, j, w) == Pte(m, j, w)
    ensures WriteSole(n)
  {
    forall j: nat, w: nat | Pte(n, j, w).present && Pte(n, j, w).write
      ensures Pte(n, j, w).index < |n.refs| && n.refs[Pte(n, j, w).index] == 1
    {
      var p := Pte(n, j, w).index;
      assert Names(n, PteSlot(j, w), p);
      NamedCounts(m, PteSlot(j, w), p);
    }
  }

  // One round of freePde.
  lemma FreeTableKeeps(m: Mem, i: nat, d: nat)
    requires Core(m) && i in m.spaces && FIRST_USER_PDE <= d < SELF_PDE && Pde(m, i, d).present
    ensures FreeTable(m, i, d).Ok?
    ensures var n := FreeTable(m, i, d).value;
      && Core(n) && n.phys == m.phys && n.start == m.start && |n.refs| == |m.refs|
      && n.spaces == SetPde(m, i, d, ABSENT).spaces
  {
    var t := Pde(m, i, d).index;
    assert Names(m, DirSlot(i, d), t);
    TableDroppable(m, i, d);
    DropPagesWorks(m, TableOf(m, i, d), 1024);
    var m1 := DropPages(m, TableOf(m, i, d), 1024).value;
    AmongIsNamed(m, i, d, t);
    NamedCounts(m, DirSlot(i, d), t);
    assert m1.refs[t] == m.refs[t];
    PutPageWorks(m1, t);
    FreeTableEffect(m, FreeTable(m, i, d).value, i, d);
  }

  lemma FreeTableEffect(m: Mem, n: Mem, i: nat, d: nat)
    requires Core(m) && HasTable(m, i, d) && FIRST_USER_PDE <= d < SELF_PDE
    requires n.phys == m.phys && n.start == m.start && |n.refs| == |m.refs|
    requires n.spaces == SetPde(m, i, d, ABSENT).spaces && Accounted(n)
    requires forall p: nat | p < |m.refs| ::
               n.refs[p] as int + (if Among(TableOf(m, i, d), 1024, p) then 1 else 0) == m.refs[p] as int - (if p == Pde(m, i, d).index then 1 else 0)
    ensures Core(n)
  {
    assert forall j: nat, e: nat :: Pde(n, j, e) == if j == i && e == d then ABSENT else Pde(m, j, e);
    assert forall j: nat, w: nat :: Pte(n, j, w) == if j == i && w / 1024 == d then ABSENT else Pte(m, j, w);
    forall s, p: nat ensures Names(n, s, p) <==> Names(m, s, p) && !InTable(s, i, d) {
    }
    forall p: nat | p < |m.refs|
      ensures n.refs[p] as int == m.refs[p] as int - (if exists s :: Names(m, s, p) && InTable(s, i, d) then 1 else 0)
    {
      TableNames(m, i, d, p);
    }
    RemovedCore(m, n, i, d);
  }

  // Frame p is named from within table d iff it is the table or one of its pages.
  lemma TableNames(m: Mem, i: nat, d: nat, p: nat)
    requires Core(m) && HasTable(m, i, d) && FIRST_USER_PDE <= d < SELF_PDE
    ensures (exists s :: Names(m, s, p) && InTable(s, i, d)) <==>
              Among(TableOf(m, i, d), 1024, p) || p == Pde(m, i, d).index
    ensures !(Among(TableOf(m, i, d), 1024, p) && p == Pde(m, i, d).index)
  {
    AmongIsNamed(m, i, d, p);
    assert Names(m, DirSlot(i, d), Pde(m, i, d).index) && InTable(DirSlot(i, d), i, d);
    if v: nat :| v / 1024 == d && Names(m, PteSlot(i, v), p) {
      assert InTable(PteSlot(i, v), i, d);
      assert m.phys[p].Data?;
    }
  }

  // n is m with the user slots below d of process i cleared.
  ghost predicate Cleared(m: Mem, n: Mem, i: nat, d: nat) {
    && n.phys == m.phys && n.start == m.start && |n.refs| == |m.refs| && i in m.spaces
    && n.spaces.Keys == m.spaces.Keys
    && (forall j :: j in m.spaces && j != i ==> n.spaces[j] == m.spaces[j])
    && (forall e: nat :: if FIRST_USER_PDE <= e < d then !Pde(n, i, e).present else Pde(n, i, e) == Pde(m, i, e))
  }

  lemma {:induction false} FreeTablesKeeps(m: Mem, i: nat, d: nat)
    requires Core(m) && i in m.spaces && FIRST_USER_PDE <= d <= SELF_PDE
    ensures FreeTables(m, i, d).Ok?
    ensures Core(FreeTables(m, i, d).value) && Cleared(m, FreeTables(m, i, d).value, i, d)
  {
    hide Core;
    if d > FIRST_USER_PDE {
      FreeTablesKeeps(m, i, d - 1);
      var m1 := FreeTables(m, i, d - 1).value;
      if Pde(m1, i, d - 1).present {
        FreeTableKeeps(m1, i, d - 1);
        hide FreeTable;
        OneMoreCleared(m, m1, FreeTables(m, i, d).value, i, d);
      }
    }
  }

  lemma OneMoreCleared(m: Mem, m1: Mem, n: Mem, i: nat, d: nat)
    requires FIRST_USER_PDE < d <= SELF_PDE && Cleared(m, m1, i, d - 1)
    requires n.phys == m1.phys && n.start == m1.start && |n.refs| == |m1.refs|
    requires n.spaces == SetPde(m1, i, d - 1, ABSENT).spaces
    ensures Cleared(m, n, i, d)
  {
    assert n.spaces.Keys == m1.spaces.Keys;
    assert forall e: nat :: Pde(n, i, e) == if e == d - 1 then ABSENT else Pde(m1, i, e);
  }

  // exit never fails an assert, and it leaves every other process as it was.
  lemma ExitKeeps(m: Mem, i: nat)
    requires Inv(m) && i in m.spaces
    ensures Exit(m, i).Ok?
    ensures var n := Exit(m, i).value;
      && Inv(n) && n.phys == m.phys && n.start == m.start && |n.refs| == |m.refs|
      && n.spaces == m.spaces - {i}
  {
    FreeTablesKeeps(m, i, SELF_PDE);
    var m1 := FreeTables(m, i, SELF_PDE).value;
    var n := Exit(m, i).value;
    assert n.spaces == m.spaces - {i};
    ExitTables(m, m1, n, i);
    ExitMirrors(m, n, i);
  }

  lemma ExitMirrors(m: Mem, n: Mem, i: nat)
    requires Inv(m) && n.phys == m.phys && n.spaces == m.spaces - {i} && Core(n)
    ensures Inv(n)
  {
    SubsetSize(n.spaces.Keys, m.spaces.Keys);
    forall j | j in n.spaces ensures Mirror(n, j) {
      MirrorSame(m, n, j);
    }
    hide Core, Mirror;
  }

  lemma MirrorSame(m: Mem, n: Mem, j: nat)
    requires Mirror(m, j) && j in n.spaces && n.spaces[j] == m.spaces[j] && n.phys == m.phys
    ensures Mirror(n, j)
  {
    assert forall v: nat :: Pte(n, j, v) == Pte(m, j, v);
  }

  lemma SubsetSize(s: set<nat>, t: set<nat>)
    requires s <= t
    ensures |s| <= |t|
  {
    assert t == s + (t - s);
  }

  lemma ExitTables(m: Mem, m1: Mem, n: Mem, i: nat)
    requires Core(m1) && Cleared(m, m1, i, SELF_PDE) && n == m1.(spaces := m.spaces - {i})
    ensures Core(n)
  {
    assert forall j: nat, v: nat :: Pte(n, j, v) == Pte(m1, j, v);
    assert forall s, p: nat :: Names(n, s, p) <==> Names(m1, s, p);
    SameNamesCore(m1, n);
  }

  // ---------- copyPde ----------

  // Every page of the child is the same page of the parent.
  ghost predicate Mirrors(m: Mem, i: nat, c: nat) {
    forall v: nat :: Pte(m, c, v).present ==> Pte(m, i, v).present && Pte(m, c, v).index == Pte(m, i, v).index
  }

  // A set of page slots of distinct processes is no larger than the process table.
  lemma {:induction false} OnePerProcess(s: set<Slot>, keys: set<nat>)
    requires forall x :: x in s ==> x.PteSlot? && x.i in keys
    requires forall x, y :: x in s && y in s && x.i == y.i ==> x == y
    ensures |s| <= |keys|
    decreases s
  {
    if x :| x in s {
      OnePerProcess(s - {x}, keys - {x.i});
    }
  }

  // A data frame is shared by at most as many processes as there are: with 64 task
  // slots the byte counter of memoryMap never comes near its limit of 255.
  lemma SharersBounded(m: Mem, p: nat)
    requires Core(m) && p < |m.refs| && m.phys[p].Data?
    ensures m.refs[p] <= if |m.spaces| == 0 then 1 else |m.spaces|
  {
    if KERNEL_FRAMES <= p {
      var s := Refs(m, p);
      forall x | x in s ensures x.PteSlot? && x.i in m.spaces.Keys {
        assert Names(m, x, p);
      }
      forall x, y | x in s && y in s && x.i == y.i ensures x == y {
        assert Names(m, x, p) && Names(m, y, p);
      }
      OnePerProcess(s, m.spaces.Keys);
    }
  }

  // The inner loop of copyPde adds one reference to each page of the table.
  lemma {:induction false} ShareWorks(refs: seq<uint8>, ptes: Entries, t: nat)
    requires t <= 1024 && Distinct(ptes)
    requires forall k | 0 <= k < 1024 && ptes[k].present :: ptes[k].index < |refs| && 1 <= refs[ptes[k].index] <= 64
    ensures Share(refs, ptes, t).Ok?
    ensures forall p: nat | p < |refs| ::
      Share(refs, ptes, t).value[p] as int == refs[p] as int + (if Among(ptes, t, p) then 1 else 0)
  {
    if t > 0 {
      ShareWorks(refs, ptes, t - 1);
      var e := ptes[t - 1];
      forall p: nat ensures Among(ptes, t, p) <==> Among(ptes, t - 1, p) || (e.present && e.index == p) {
        assert e.present && e.index == p ==> Among(ptes, t, p);
      }
      if e.present {
        assert !Among(ptes, t - 1, e.index);
      }
    }
  }

  // n is m after table d of process i was shared with process c, whose copy of the
  // table is frame f.
  ghost predicate Copied(m: Mem, n: Mem, i: nat, c: nat, d: nat, f: nat) {
    && |n.phys| == |m.phys| && |n.refs| == |m.refs| && n.start == m.start && n.free == m.free - 1
    && n.spaces.Keys == m.spaces.Keys
    && (forall j :: j in m.spaces && j != c ==> n.spaces[j] == m.spaces[j])
    && c in m.spaces && n.spaces[c].vmap == m.spaces[c].vmap && n.spaces[c].brk == m.spaces[c].brk
    && (forall j: nat, e: nat ::
          Pde(n, j, e) == if j == c && e == d then Pde(m, i, d).(index := f) else Pde(m, j, e))
    && (forall j: nat, w: nat ::
          Pte(n, j, w) == if w / 1024 == d && (j == i || j == c) then ReadOnly(Pte(m, i, w)) else Pte(m, j, w))
  }

  // The frames and counters after the same step.
  ghost predicate CopiedFrames(m: Mem, n: Mem, i: nat, d: nat, f: nat) {
    && HasTable(m, i, d) && |n.phys| == |m.phys| == |n.refs| == |m.refs|
    && KERNEL_FRAMES <= f < |m.refs| && m.refs[f] == 0 && (forall s :: !Names(m, s, f))
    && (forall q :: 0 <= q < |m.phys| && q != f && q != Pde(m, i, d).index ==> n.phys[q] == m.phys[q])
    && n.phys[f].Table? && n.phys[Pde(m, i, d).index].Table?
    && (forall p: nat :: p < |m.refs| ==>
          n.refs[p] as int == m.refs[p] as int + (if Among(TableOf(m, i, d), 1024, p) then 1 else 0) + (if p == f then 1 else 0))
  }

  // The tables before a round of copyPde's outer loop.
  ghost predicate Copying(m: Mem, i: nat, c: nat) {
    && Core(m) && Mirrors(m, i, c) && |m.phys| == |m.refs|
    && i in m.spaces && c in m.spaces && i != c && |m.spaces| <= NR_TASKS
  }

  lemma CopyTableEffect(m: Mem, i: nat, c: nat, d: nat)
    requires Copying(m, i, c) && FIRST_USER_PDE <= d < SELF_PDE && Pde(m, i, d).present && !Pde(m, c, d).present
    ensures CopyTable(m, i, c, d).Halt? ==> CopyTable(m, i, c, d).why == OutOfMemory
    ensures CopyTable(m, i, c, d).Ok? ==>
      var n := CopyTable(m, i, c, d).value;
      exists f: nat :: Copied(m, n, i, c, d, f) && CopiedFrames(m, n, i, d, f) && Accounted(n)
  {
    assert Names(m, DirSlot(i, d), Pde(m, i, d).index) && |m.phys| == |m.refs|;
    assert HasTable(m, i, d);
    var ptes := TableOf(m, i, d);
    TableShareable(m, i, d);
    ShareWorks(m.refs, ptes, 1024);
    hide Core, Mirrors, HasTable, TableOf, Copied, CopiedFrames, Distinct, Among, Accounted;
    if CopyTable(m, i, c, d).Ok? {
      CopyTableParts(m, i, c, d, Share(m.refs, ptes, 1024).value, CopyTable(m, i, c, d).value);
    }
  }

  lemma CopyTableParts(m: Mem, i: nat, c: nat, d: nat, refs: seq<uint8>, n: Mem)
    requires Copying(m, i, c) && FIRST_USER_PDE <= d < SELF_PDE && HasTable(m, i, d) && !Pde(m, c, d).present
    requires |refs| == |m.refs| == |m.phys| && FirstFree(refs, m.start) < |refs|
    requires forall p: nat | p < |m.refs| :: refs[p] as int == m.refs[p] as int + (if Among(TableOf(m, i, d), 1024, p) then 1 else 0)
    requires var f := FirstFree(refs, m.start); var ro := Table(AllReadOnly(TableOf(m, i, d)));
      && n == m.(refs := refs[f := 1], free := m.free - 1, phys := m.phys[Pde(m, i, d).index := ro][f := ro], spaces := n.spaces)
      && n.spaces == SetPde(m, c, d, Pde(m, i, d).(index := f)).spaces
    ensures var f := FirstFree(refs, m.start);
      Copied(m, n, i, c, d, f) && CopiedFrames(m, n, i, d, f) && Accounted(n)
  {
    hide *;
    CopyingCore(m, i, c);
    var f := FirstFree(refs, m.start);
    SharedFresh(m, m.(refs := refs), i, d, f);
    CopiedTables(m, n, i, c, d, f);
    FramesCopied(m, n, i, d, f);
    RefsCopied(m, n, refs, i, d, f);
  }

  lemma FramesCopied(m: Mem, n: Mem, i: nat, d: nat, f: nat)
    requires HasTable(m, i, d) && |n.refs| == |m.refs| == |m.phys| && KERNEL_FRAMES <= f < |m.refs| && m.refs[f] == 0
    requires (forall s :: !Names(m, s, f)) && !Among(TableOf(m, i, d), 1024, f)
    requires var ro := Table(AllReadOnly(TableOf(m, i, d))); n.phys == m.phys[Pde(m, i, d).index := ro][f := ro]
    requires forall p: nat :: p < |m.refs| && p != f ==>
               n.refs[p] as int == m.refs[p] as int + (if Among(TableOf(m, i, d), 1024, p) then 1 else 0)
    requires n.refs[f] == 1
    ensures CopiedFrames(m, n, i, d, f)
  {
    hide Among, Names;
  }

  lemma RefsCopied(m: Mem, n: Mem, refs: seq<uint8>, i: nat, d: nat, f: nat)
    requires Core(m) && HasTable(m, i, d) && FIRST_USER_PDE <= d < SELF_PDE && f < |refs| == |m.refs| && refs[f] == 0
    requires forall p: nat | p < |m.refs| :: refs[p] as int == m.refs[p] as int + (if Among(TableOf(m, i, d), 1024, p) then 1 else 0)
    requires n.refs == refs[f := 1] && n.free == m.free - 1 && n.start == m.start
    ensures Accounted(n)
  {
    TableDroppable(m, i, d);
    hide Core, Distinct, Among;
    SharedAccounts(m, m.(refs := refs), TableOf(m, i, d));
    ZerosAfter(refs, f, 1);
  }

  lemma TableShareable(m: Mem, i: nat, d: nat)
    requires Core(m) && HasTable(m, i, d) && FIRST_USER_PDE <= d < SELF_PDE && 0 < |m.spaces| <= NR_TASKS
    ensures var ptes := TableOf(m, i, d);
      Distinct(ptes) && forall k | 0 <= k < 1024 && ptes[k].present :: ptes[k].index < |m.refs| && 1 <= m.refs[ptes[k].index] <= 64
  {
    TableDroppable(m, i, d);
    var ptes := TableOf(m, i, d);
    forall k | 0 <= k < 1024 && ptes[k].present
      ensures m.refs[ptes[k].index] <= 64
    {
      TableEntry(m, i, d, k);
      assert Names(m, PteSlot(i, d * 1024 + k), ptes[k].index);
      SharersBounded(m, ptes[k].index);
    }
  }

  lemma SharedAccounts(m: Mem, m1: Mem, ptes: Entries)
    requires Accounted(m) && |m1.refs| == |m.refs| && m1.free == m.free && m1.start == m.start
    requires forall k | 0 <= k < 1024 && ptes[k].present :: ptes[k].index < |m.refs| && 1 <= m.refs[ptes[k].index]
    requires forall p: nat | p < |m.refs| :: m1.refs[p] as int == m.refs[p] as int + (if Among(ptes, 1024, p) then 1 else 0)
    ensures Accounted(m1)
  {
    assert Zeros(m1.refs) == Zeros(m.refs);
  }

  lemma SharedFresh(m: Mem, m1: Mem, i: nat, d: nat, f: nat)
    requires Core(m) && HasTable(m, i, d) && |m1.refs| == |m.refs| && m1.start == m.start
    requires IsFirstFree(m1.refs, m1.start, f)
    requires forall p: nat | p < |m.refs| ::
               m1.refs[p] as int == m.refs[p] as int + (if Among(TableOf(m, i, d), 1024, p) then 1 else 0)
    ensures KERNEL_FRAMES <= f < |m.refs| && m.refs[f] == 0 && forall s :: !Names(m, s, f)
    ensures !Among(TableOf(m, i, d), 1024, f)
  {
    assert m.refs[f] == 0 && |Refs(m, f)| == 0;
    forall s ensures !Names(m, s, f) {
      assert s !in Refs(m, f);
    }
  }

  lemma CopiedTables(m: Mem, n: Mem, i: nat, c: nat, d: nat, f: nat)
    requires Copying(m, i, c) && FIRST_USER_PDE <= d < SELF_PDE && HasTable(m, i, d) && !Pde(m, c, d).present
    requires KERNEL_FRAMES <= f < |m.refs| && forall s :: !Names(m, s, f)
    requires |n.refs| == |m.refs| && n.start == m.start && n.free == m.free - 1
    requires var ro := Table(AllReadOnly(TableOf(m, i, d))); n.phys == m.phys[Pde(m, i, d).index := ro][f := ro]
    requires n.spaces == SetPde(m, c, d, Pde(m, i, d).(index := f)).spaces
    ensures Copied(m, n, i, c, d, f)
  {
    var t := Pde(m, i, d).index;
    assert Names(m, DirSlot(i, d), t);
    assert forall j: nat, e: nat :: Pde(n, j, e) == if j == c && e == d then Pde(m, i, d).(index := f) else Pde(m, j, e);
    forall j: nat, w: nat
      ensures Pte(n, j, w) == if w / 1024 == d && (j == i || j == c) then ReadOnly(Pte(m, i, w)) else Pte(m, j, w)
    {
      CopiedPage(m, n, i, c, d, f, j, w);
    }
  }

  lemma CopiedPage(m: Mem, n: Mem, i: nat, c: nat, d: nat, f: nat, j: nat, w: nat)
    requires Shape(m) && OneOwner(m) && i != c
    requires FIRST_USER_PDE <= d < SELF_PDE && HasTable(m, i, d) && !Pde(m, c, d).present
    requires KERNEL_FRAMES <= f < |m.refs| && forall s :: !Names(m, s, f)
    requires var ro := Table(AllReadOnly(TableOf(m, i, d))); n.phys == m.phys[Pde(m, i, d).index := ro][f := ro]
    requires forall k: nat, e: nat :: Pde(n, k, e) == if k == c && e == d then Pde(m, i, d).(index := f) else Pde(m, k, e)
    ensures Pte(n, j, w) == if w / 1024 == d && (j == i || j == c) then ReadOnly(Pte(m, i, w)) else Pte(m, j, w)
  {
    var t := Pde(m, i, d).index;
    assert Names(m, DirSlot(i, d), t);
    if USER_BASE <= w < VIRTUAL_LIMIT && Pde(m, j, w / 1024).present {
      assert Names(m, DirSlot(j, w / 1024), Pde(m, j, w / 1024).index);
    }
  }

  // Which slots name what after the round.
  lemma CopiedNames(m: Mem, n: Mem, i: nat, c: nat, d: nat, f: nat)
    requires Copied(m, n, i, c, d, f) && FIRST_USER_PDE <= d < SELF_PDE && Pde(m, i, d).present
    ensures forall s, p: nat :: Names(n, s, p) <==>
      if s == DirSlot(c, d) then p == f
      else if s.PteSlot? && s.i == c && s.v / 1024 == d then Names(m, PteSlot(i, s.v), p)
      else Names(m, s, p)
  {
  }

  lemma CopiedShape(m: Mem, n: Mem, i: nat, c: nat, d: nat, f: nat)
    requires Copying(m, i, c) && Copied(m, n, i, c, d, f) && CopiedFrames(m, n, i, d, f)
    requires FIRST_USER_PDE <= d < SELF_PDE && Pde(m, i, d).present
    ensures Shape(n) && OneOwner(n) && SameData(m, n)
  {
    CopiedNames(m, n, i, c, d, f);
    assert Names(m, DirSlot(i, d), Pde(m, i, d).index);
    hide Copied, Pte, Counted, WriteSole, NoAlias, Among;
    assert Shape(n) by {
      hide OneOwner, SameData;
    }
    assert OneOwner(n);
    assert SameData(m, n);
  }

  lemma CopiedAlias(m: Mem, n: Mem, i: nat, c: nat, d: nat, f: nat)
    requires Copying(m, i, c) && Copied(m, n, i, c, d, f)
    requires FIRST_USER_PDE <= d < SELF_PDE && Pde(m, i, d).present
    ensures NoAlias(n) && Mirrors(n, i, c)
  {
    CopiedNames(m, n, i, c, d, f);
    forall j: nat, v: nat, w: nat, p: nat | Names(n, PteSlot(j, v), p) && Names(n, PteSlot(j, w), p)
      ensures v == w
    {
      var k := if j == c then i else j;
      assert Names(m, PteSlot(k, v), p) && Names(m, PteSlot(k, w), p);
    }
  }

  lemma CopiedCount(m: Mem, n: Mem, i: nat, c: nat, d: nat, f: nat, p: nat)
    requires Copying(m, i, c) && Copied(m, n, i, c, d, f) && CopiedFrames(m, n, i, d, f)
    requires FIRST_USER_PDE <= d < SELF_PDE && Pde(m, i, d).present && !Pde(m, c, d).present
    requires KERNEL_FRAMES <= p < |n.refs|
    ensures n.refs[p] == |Refs(n, p)|
  {
    AmongIsNamed(m, i, d, p);
    var before, after := Refs(m, p), Refs(n, p);
    assert n.refs[p] as int == |before| + (if Among(TableOf(m, i, d), 1024, p) then 1 else 0) + (if p == f then 1 else 0);
    if v: nat :| v / 1024 == d && Names(m, PteSlot(i, v), p) {
      CopiedRefs(m, n, i, c, d, f, p, PteSlot(c, v));
    } else {
      CopiedRefs(m, n, i, c, d, f, p, DirSlot(c, d));
    }
  }

  // The set of slots naming p changes in slot s at most.
  lemma CopiedRefs(m: Mem, n: Mem, i: nat, c: nat, d: nat, f: nat, p: nat, s: Slot)
    requires Copying(m, i, c) && Copied(m, n, i, c, d, f)
    requires FIRST_USER_PDE <= d < SELF_PDE && Pde(m, i, d).present && !Pde(m, c, d).present
    requires forall t :: !Names(m, t, f)
    requires match s
      case DirSlot(j, e) => j == c && e == d && forall v: nat :: v / 1024 == d ==> !Names(m, PteSlot(i, v), p)
      case PteSlot(j, v) => j == c && v / 1024 == d && Names(m, PteSlot(i, v), p)
    ensures |Refs(n, p)| == |Refs(m, p)| + if s.PteSlot? || p == f then 1 else 0
  {
    CopiedNames(m, n, i, c, d, f);
    assert forall v: nat :: v / 1024 == d ==> !Names(m, PteSlot(c, v), p);
    assert !Names(m, s, p);
    hide Copied, Pte, Pde;
    var before, after := Refs(m, p), Refs(n, p);
    forall t | t != s ensures t in before <==> t in after {
      assert t.PteSlot? && t.i == c && t.v / 1024 == d ==> !Names(m, PteSlot(i, t.v), p);
    }
    OneElement(before, after, s);
  }

  lemma CopiedCounted(m: Mem, n: Mem, i: nat, c: nat, d: nat, f: nat)
    requires Copying(m, i, c) && Copied(m, n, i, c, d, f) && CopiedFrames(m, n, i, d, f)
    requires FIRST_USER_PDE <= d < SELF_PDE && Pde(m, i, d).present && !Pde(m, c, d).present
    ensures Counted(n)
  {
    forall p | KERNEL_FRAMES <= p < |n.refs| ensures n.refs[p] == |Refs(n, p)| {
      CopiedCount(m, n, i, c, d, f, p);
    }
    forall p | 0 <= p < KERNEL_FRAMES && p < |n.refs| ensures n.refs[p] == 1 {
      AmongIsNamed(m, i, d, p);
    }
  }

  lemma CopiedSole(m: Mem, n: Mem, i: nat, c: nat, d: nat, f: nat)
    requires Copying(m, i, c) && Copied(m, n, i, c, d, f) && CopiedFrames(m, n, i, d, f)
    requires FIRST_USER_PDE <= d < SELF_PDE && Pde(m, i, d).present
    ensures WriteSole(n)
  {
    forall j: nat, w: nat | Pte(n, j, w).present && Pte(n, j, w).write
      ensures Pte(n, j, w).index < |n.refs| && n.refs[Pte(n, j, w).index] == 1
    {
      var p := Pte(m, j, w).index;
      assert Names(m, PteSlot(j, w), p);
      NamedCounts(m, PteSlot(j, w), p);
      AmongIsNamed(m, i, d, p);
    }
  }

  // One round of copyPde keeps the invariant.
  lemma CopyTableKeeps(m: Mem, i: nat, c: nat, d: nat)
    requires Copying(m, i, c) && FIRST_USER_PDE <= d < SELF_PDE && Pde(m, i, d).present && !Pde(m, c, d).present
    ensures CopyTable(m, i, c, d).Halt? ==> CopyTable(m, i, c, d).why == OutOfMemory
    ensures CopyTable(m, i, c, d).Ok? ==>
      var n := CopyTable(m, i, c, d).value;
      && Copying(n, i, c) && SameData(m, n)
      && exists f: nat :: Copied(m, n, i, c, d, f)
  {
    CopyTableEffect(m, i, c, d);
    hide Core, CopyTable, Mirrors;
    if CopyTable(m, i, c, d).Ok? {
      var n := CopyTable(m, i, c, d).value;
      var f: nat :| Copied(m, n, i, c, d, f) && CopiedFrames(m, n, i, d, f) && Accounted(n);
      CopiedShape(m, n, i, c, d, f);
      CopiedAlias(m, n, i, c, d, f);
      CopiedCounted(m, n, i, c, d, f);
      CopiedSole(m, n, i, c, d, f);
      CoreFromParts(n);
      assert |n.spaces.Keys| == |m.spaces.Keys|;
    }
  }

  lemma CoreFromParts(n: Mem)
    requires Shape(n) && OneOwner(n) && NoAlias(n) && Counted(n) && WriteSole(n) && Accounted(n)
    ensures Core(n)
  {
    hide Shape, OneOwner, NoAlias, Counted, WriteSole, Accounted;
  }

  // Progress of copyPde: below d the child has what the parent has, from d on it
  // has nothing; for everybody else only write permissions may have gone.
  ghost predicate Progress(m: Mem, n: Mem, i: nat, c: nat, d: nat) {
    && |n.phys| == |m.phys| && n.start == m.start && n.spaces.Keys == m.spaces.Keys && SameData(m, n)
    && (forall j :: j in m.spaces && j != c ==> n.spaces[j] == m.spaces[j])
    && (forall j :: j in m.spaces ==> n.spaces[j].vmap == m.spaces[j].vmap && n.spaces[j].brk == m.spaces[j].brk)
    && (forall j: nat, w: nat :: j != c ==> Pte(n, j, w) == Pte(m, j, w) || (j == i && Pte(n, j, w) == ReadOnly(Pte(m, j, w))))
    && (forall w: nat :: Pte(n, c, w).present <==> Pte(m, i, w).present && w / 1024 < d)
    && (forall e: nat :: FIRST_USER_PDE <= e < SELF_PDE ==> (Pde(n, c, e).present <==> Pde(m, i, e).present && e < d))
  }

  lemma {:induction false} CopyTablesKeeps(m: Mem, i: nat, c: nat, d: nat)
    requires Copying(m, i, c) && FIRST_USER_PDE <= d <= SELF_PDE
    requires forall e: nat :: FIRST_USER_PDE <= e < SELF_PDE ==> !Pde(m, c, e).present
    ensures CopyTables(m, i, c, d).Halt? ==> CopyTables(m, i, c, d).why == OutOfMemory
    ensures CopyTables(m, i, c, d).Ok? ==>
      var n := CopyTables(m, i, c, d).value; Copying(n, i, c) && Progress(m, n, i, c, d)
  {
    hide Core, Mirrors;
    if d > FIRST_USER_PDE {
      CopyTablesKeeps(m, i, c, d - 1);
      if CopyTables(m, i, c, d - 1).Ok? {
        var m1 := CopyTables(m, i, c, d - 1).value;
        assert Pde(m1, i, d - 1) == Pde(m, i, d - 1);
        if Pde(m, i, d - 1).present {
          CopyTableKeeps(m1, i, c, d - 1);
          if CopyTable(m1, i, c, d - 1).Ok? {
            var n := CopyTable(m1, i, c, d - 1).value;
            var f: nat :| Copied(m1, n, i, c, d - 1, f);
            NextTable(m, m1, n, i, c, d, f);
          }
        } else {
          hide Copying, CopyTable;
          NoTable(m, m1, i, c, d);
        }
      }
    }
  }

  lemma NextTable(m: Mem, m1: Mem, n: Mem, i: nat, c: nat, d: nat, f: nat)
    requires FIRST_USER_PDE < d <= SELF_PDE && i != c && c in m.spaces && Pde(m, i, d - 1).present
    requires forall e: nat :: FIRST_USER_PDE <= e < SELF_PDE ==> !Pde(m, c, e).present
    requires Progress(m, m1, i, c, d - 1) && Copied(m1, n, i, c, d - 1, f) && SameData(m1, n)
    ensures Progress(m, n, i, c, d)
  {
    forall s: Slot, p: nat | s.PteSlot? && Names(m, s, p) && p < |m.phys|
      ensures n.phys[p] == m.phys[p]
    {
      assert s.i != c;
      assert Names(m1, s, p);
    }
  }

  lemma NoTable(m: Mem, n: Mem, i: nat, c: nat, d: nat)
    requires FIRST_USER_PDE < d <= SELF_PDE && !Pde(m, i, d - 1).present && Progress(m, n, i, c, d - 1)
    ensures Progress(m, n, i, c, d)
  {
    assert forall w: nat :: w / 1024 == d - 1 ==> !Pte(m, i, w).present;
  }

  // ---------- fork ----------

  // What a fork of process i leaves behind: process c has the pages of i, and for
  // everybody else only write permissions of i may have gone.
  ghost predicate Forked(m: Mem, n: Mem, i: nat, c: nat) {
    && i in m.spaces && c !in m.spaces && n.start == m.start
    && n.spaces.Keys == m.spaces.Keys + {c}
    && (forall j :: j in m.spaces ==> n.spaces[j] == m.spaces[j])
    && n.spaces[c].vmap == m.spaces[i].vmap && n.spaces[c].brk == m.spaces[i].brk
    && (forall j: nat, w: nat :: j != c ==> Pte(n, j, w) == Pte(m, j, w) || (j == i && Pte(n, j, w) == ReadOnly(Pte(m, j, w))))
    && (forall w: nat :: Pte(n, c, w).present <==> Pte(m, i, w).present)
    && (forall w: nat :: Pte(n, c, w).present ==> Pte(n, c, w).index == Pte(m, i, w).index)
    && SameData(m, n)
  }

  lemma NewDirectory(m: Mem, n: Mem, i: nat, c: nat, self: nat)
    requires Inv(m) && i in m.spaces && c !in m.spaces && |m.spaces| < NR_TASKS
    requires n == m.(spaces := m.spaces[c := m.spaces[i].(dir := ChildDir(m.spaces[i].dir, self))])
    ensures Copying(n, i, c)
    ensures forall e: nat :: FIRST_USER_PDE <= e < SELF_PDE ==> !Pde(n, c, e).present
    ensures forall j: nat, w: nat :: Pte(n, j, w) == Pte(m, j, w)
    ensures forall j: nat, e: nat :: j != c ==> Pde(n, j, e) == Pde(m, j, e)
  {
    assert n.spaces.Keys == m.spaces.Keys + {c} && |n.spaces.Keys| == |m.spaces.Keys| + 1;
    forall s, p: nat ensures Names(n, s, p) <==> Names(m, s, p) {
    }
    SameNamesCore(m, n);
  }

  lemma SameNamesCore(m: Mem, n: Mem)
    requires Core(m) && n.phys == m.phys && n.refs == m.refs && n.start == m.start && n.free == m.free
    requires forall s, p: nat :: Names(n, s, p) <==> Names(m, s, p)
    requires forall j: nat, w: nat :: Pte(n, j, w) == Pte(m, j, w)
    ensures Core(n)
  {
    hide Names, Pde, Pte;
    forall p: nat ensures Refs(n, p) == Refs(m, p) {
    }
  }

  // taskFork: the only way to fail is to run out of frames.
  lemma ForkKeeps(m: Mem, i: nat, c: nat, self: nat)
    requires Inv(m) && i in m.spaces && c !in m.spaces && |m.spaces| < NR_TASKS
    ensures |m.phys| == |m.refs|
    ensures Fork(m, i, c, self).Halt? ==> Fork(m, i, c, self).why == OutOfMemory
    ensures Fork(m, i, c, self).Ok? ==> Inv(Fork(m, i, c, self).value) && Forked(m, Fork(m, i, c, self).value, i, c)
  {
    var m0 := m.(spaces := m.spaces[c := m.spaces[i].(dir := ChildDir(m.spaces[i].dir, self))]);
    NewDirectory(m, m0, i, c, self);
    CopyTablesKeeps(m0, i, c, SELF_PDE);
    hide Core, CopyTables, Mirror;
    if Fork(m, i, c, self).Ok? {
      ForkedFromProgress(m, m0, Fork(m, i, c, self).value, i, c);
    }
  }

  lemma ForkedFromProgress(m: Mem, m0: Mem, n: Mem, i: nat, c: nat)
    requires Inv(m) && i in m.spaces && c !in m.spaces && Copying(n, i, c)
    requires m0.spaces.Keys == m.spaces.Keys + {c} && m0.start == m.start && m0.phys == m.phys
    requires forall j :: j in m.spaces ==> m0.spaces[j] == m.spaces[j]
    requires m0.spaces[c].vmap == m.spaces[i].vmap && m0.spaces[c].brk == m.spaces[i].brk
    requires forall j: nat, w: nat :: Pte(m0, j, w) == Pte(m, j, w)
    requires Progress(m0, n, i, c, SELF_PDE)
    ensures Inv(n) && Forked(m, n, i, c)
  {
    hide *;
    ForkedData(m, m0, n, i, c);
    ForkedIs(m, m0, n, i, c);
    ForkedMirrors(m, n, i, c);
    CopyingCore(n, i, c);
    ForkedInv(n);
  }

  lemma ForkedIs(m: Mem, m0: Mem, n: Mem, i: nat, c: nat)
    requires i in m.spaces && c !in m.spaces && Copying(n, i, c) && SameData(m, n)
    requires m0.spaces.Keys == m.spaces.Keys + {c} && m0.start == m.start
    requires forall j :: j in m.spaces ==> m0.spaces[j] == m.spaces[j]
    requires m0.spaces[c].vmap == m.spaces[i].vmap && m0.spaces[c].brk == m.spaces[i].brk
    requires forall j: nat, w: nat :: Pte(m0, j, w) == Pte(m, j, w)
    requires Progress(m0, n, i, c, SELF_PDE)
    ensures Forked(m, n, i, c)
  {
    NoPageAbove(m, i);
    hide Core, SameData, Pte, Pde;
  }

  lemma NoPageAbove(m: Mem, i: nat)
    ensures forall w: nat :: Pte(m, i, w).present ==> w / 1024 < SELF_PDE
  {
  }

  lemma CopyingCore(m: Mem, i: nat, c: nat)
    requires Copying(m, i, c)
    ensures Core(m) && |m.spaces| <= NR_TASKS
  {
    hide Core, Mirrors;
  }

  lemma ForkedInv(m: Mem)
    requires Core(m) && |m.spaces| <= NR_TASKS && forall j :: j in m.spaces ==> Mirror(m, j)
    ensures Inv(m)
  {
    hide Core, Mirror;
  }

  lemma ForkedData(m: Mem, m0: Mem, n: Mem, i: nat, c: nat)
    requires m0.phys == m.phys && Progress(m0, n, i, c, SELF_PDE)
    requires forall j: nat, w: nat :: Pte(m0, j, w) == Pte(m, j, w)
    ensures SameData(m, n)
  {
    hide Pte;
    forall s: Slot, p: nat | s.PteSlot? && Names(m, s, p) && p < |m.phys| ensures n.phys[p] == m.phys[p] {
      assert Names(m0, s, p);
    }
  }


  lemma ForkedMirrors(m: Mem, n: Mem, i: nat, c: nat)
    requires Inv(m) && Forked(m, n, i, c)
    ensures forall j :: j in n.spaces ==> Mirror(n, j)
  {
    hide Core, SameData;
    forall j | j in n.spaces ensures Mirror(n, j) {
      assert Mirror(m, if j == c then i else j);
    }
  }

  // After a fork everybody sees what they saw, and the child sees what the parent sees.
  lemma ForkedSees(m: Mem, n: Mem, i: nat, c: nat)
    requires Inv(m) && Forked(m, n, i, c)
    ensures forall j: nat, w: nat, page: Page :: Sees(n, j, w, page) <==> Sees(m, if j == c then i else j, w, page)
  {
    forall j: nat, w: nat, page: Page
      ensures Sees(n, j, w, page) <==> Sees(m, if j == c then i else j, w, page)
    {
      var k := if j == c then i else j;
      if Pte(m, k, w).present {
        assert Names(m, PteSlot(k, w), Pte(m, k, w).index);
      }
    }
  }

  // Fork and exit of the child cancel: every counter of memoryMap, freePages and
  // every address space come back; only the parent may have lost write permissions
  // (which its next write fault gives back).
  lemma ExitUndoesFork(m: Mem, i: nat, c: nat, self: nat)
    requires Inv(m) && i in m.spaces && c !in m.spaces && |m.spaces| < NR_TASKS && |m.phys| == |m.refs|
    requires Fork(m, i, c, self).Ok?
    ensures Exit(Fork(m, i, c, self).value, c).Ok?
    ensures var n := Exit(Fork(m, i, c, self).value, c).value;
      && n.refs == m.refs && n.free == m.free && n.start == m.start && n.spaces == m.spaces
      && (forall j: nat, w: nat ::
            Pte(n, j, w) == Pte(m, j, w) || (j == i && Pte(n, j, w) == ReadOnly(Pte(m, j, w))))
      && (forall j: nat, w: nat, page: Page :: Sees(n, j, w, page) <==> Sees(m, j, w, page))
      && Inv(n)
  {
    ForkKeeps(m, i, c, self);
    var k := Fork(m, i, c, self).value;
    ExitKeeps(k, c);
    var n := Exit(k, c).value;
    assert |n.refs| == |m.refs| by {
      assert |k.refs| == |k.phys| == |m.phys|;
    }
    UndoneTables(m, k, n, i, c);
    hide Inv;
    SameCounters(m, n, i);
  }

  lemma UndoneTables(m: Mem, k: Mem, n: Mem, i: nat, c: nat)
    requires Inv(m) && Forked(m, k, i, c) && n.phys == k.phys && n.spaces == k.spaces - {c}
    ensures n.spaces == m.spaces
    ensures forall j: nat, w: nat ::
              Pte(n, j, w) == Pte(m, j, w) || (j == i && Pte(n, j, w) == ReadOnly(Pte(m, j, w)))
    ensures forall j: nat, w: nat, page: Page :: Sees(n, j, w, page) <==> Sees(m, j, w, page)
  {
    ForkedSees(m, k, i, c);
    ExitPages(k, n, c);
    hide Inv;
    assert forall w: nat :: !Pte(m, c, w).present;
    assert forall w: nat, page: Page :: !Sees(n, c, w, page) && !Sees(m, c, w, page);
    hide Sees, Pte;
  }

  lemma ExitPages(k: Mem, n: Mem, c: nat)
    requires n.phys == k.phys && n.spaces == k.spaces - {c}
    ensures forall j: nat, w: nat :: j != c ==> Pte(n, j, w) == Pte(k, j, w)
    ensures forall w: nat :: !Pte(n, c, w).present
    ensures forall j: nat, w: nat, page: Page :: j != c ==> (Sees(n, j, w, page) <==> Sees(k, j, w, page))
  {
  }

  // The counters are a function of the tables: equal tables, equal memoryMap.
  lemma SameCounters(m: Mem, n: Mem, i: nat)
    requires Inv(m) && Inv(n) && |n.refs| == |m.refs| && n.start == m.start && n.spaces == m.spaces
    requires forall j: nat, w: nat :: Pte(n, j, w) == Pte(m, j, w) || (j == i && Pte(n, j, w) == ReadOnly(Pte(m, j, w)))
    ensures n.refs == m.refs && n.free == m.free
  {
    hide Mirror, Shape, OneOwner, NoAlias, WriteSole;
    forall s, p: nat ensures Names(n, s, p) <==> Names(m, s, p) {
    }
    hide Pte, Pde, Names;
    forall p | 0 <= p < |m.refs| ensures n.refs[p] == m.refs[p] {
      if KERNEL_FRAMES <= p {
        assert Refs(n, p) == Refs(m, p);
      }
    }
  }

  // ---------- sysBrk ----------

  // The pages lo..hi of process i are gone, nobody sees another change.
  ghost predicate Unlinked(m: Mem, n: Mem, i: nat, lo: nat, hi: nat) {
    && n.spaces.Keys == m.spaces.Keys
    && (forall j :: j in m.spaces ==> n.spaces[j].brk == m.spaces[j].brk)
    && (forall j: nat, w: nat :: !(j == i && lo <= w < hi) ==> Pte(n, j, w) == Pte(m, j, w))
    && (forall j: nat, w: nat, page: Page :: !(j == i && lo <= w < hi) ==> (Sees(n, j, w, page) <==> Sees(m, j, w, page)))
    && (forall w: nat :: lo <= w < hi ==> !Pte(n, i, w).present)
  }

  lemma {:induction false} UnlinkRangeKeeps(m: Mem, i: nat, lo: nat, hi: nat)
    requires Inv(m) && i in m.spaces && USER_BASE <= lo <= hi <= VMAP_LIMIT && |m.phys| == |m.refs|
    ensures UnlinkRange(m, i, lo, hi).Halt? ==> UnlinkRange(m, i, lo, hi).why == OutOfMemory
    ensures UnlinkRange(m, i, lo, hi).Ok? ==>
      Inv(UnlinkRange(m, i, lo, hi).value) && Unlinked(m, UnlinkRange(m, i, lo, hi).value, i, lo, hi)
    decreases hi
  {
    hide Inv, UnlinkPage, Pte, Sees;
    if lo < hi {
      UnlinkRangeKeeps(m, i, lo, hi - 1);
      if UnlinkRange(m, i, lo, hi - 1).Ok? {
        var m1 := UnlinkRange(m, i, lo, hi - 1).value;
        UnlinkOneMore(m1, i, hi - 1);
      }
    }
  }

  lemma UnlinkOneMore(m: Mem, i: nat, v: nat)
    requires Inv(m) && i in m.spaces && USER_BASE <= v < VMAP_LIMIT
    ensures UnlinkPage(m, i, v).Halt? ==> UnlinkPage(m, i, v).why == OutOfMemory
    ensures UnlinkPage(m, i, v).Ok? ==>
      Inv(UnlinkPage(m, i, v).value) && Unlinked(m, UnlinkPage(m, i, v).value, i, v, v + 1)
  {
    UnlinkPageKeeps(m, i, v);
    if UnlinkPage(m, i, v).Ok? {
      DataSeen(m, UnlinkPage(m, i, v).value, i, v);
    }
    hide Inv, UnlinkPage, Pte, Sees;
  }

  // The break of process i is now `page`; the pages in between are gone if it shrank.
  ghost predicate Rebroken(m: Mem, n: Mem, i: nat, page: nat) {
    && i in m.spaces && n.spaces.Keys == m.spaces.Keys && n.spaces[i].brk == page
    && (forall j :: j in m.spaces && j != i ==> n.spaces[j].brk == m.spaces[j].brk)
    && (forall j: nat, w: nat, p: Page :: Sees(n, j, w, p) <==>
          Sees(m, j, w, p) && !(j == i && page <= w < m.spaces[i].brk))
  }

  // sysBrk with a legal argument can only fail by running out of frames.  Shrinking
  // removes the pages between the two limits; growing changes no page, and is
  // refused when the distance exceeds freePages.
  lemma BrkKeeps(m: Mem, i: nat, addr: nat)
    requires Inv(m) && i in m.spaces && |m.phys| == |m.refs|
    requires addr % PAGE_SIZE == 0 && USER_BASE <= addr / PAGE_SIZE < STACK_BOTTOM
    ensures var page := addr / PAGE_SIZE; var r := Brk(m, i, addr);
      && (r.Halt? ==> r.why == OutOfMemory)
      && (r.Ok? && r.value.1 == 0 ==> Inv(r.value.0) && Rebroken(m, r.value.0, i, page))
      && (r.Ok? && r.value.1 != 0 ==> r.value == (m, -1) && page - m.spaces[i].brk > m.free)
  {
    var page := addr / PAGE_SIZE;
    NothingAbove(m, i);
    hide Inv, UnlinkRange, Sees, Pte, Rebroken, SetBrk;
    if m.spaces[i].brk > page {
      ShrinkKeeps(m, i, page);
    } else {
      GrowKeeps(m, i, page);
    }
  }

  lemma GrowKeeps(m: Mem, i: nat, page: nat)
    requires Inv(m) && i in m.spaces && m.spaces[i].brk <= page < STACK_BOTTOM
    ensures Inv(SetBrk(m, i, page)) && Rebroken(m, SetBrk(m, i, page), i, page)
  {
    NothingAbove(m, i);
    hide Inv, Sees, Pte;
    SetBrkKeeps(m, i, page);
  }

  lemma ShrinkKeeps(m: Mem, i: nat, page: nat)
    requires Inv(m) && i in m.spaces && |m.phys| == |m.refs|
    requires USER_BASE <= page < m.spaces[i].brk < STACK_BOTTOM
    ensures var r := UnlinkRange(m, i, page, m.spaces[i].brk);
      && (r.Halt? ==> r.why == OutOfMemory)
      && (r.Ok? ==> i in r.value.spaces && Inv(SetBrk(r.value, i, page)) && Rebroken(m, SetBrk(r.value, i, page), i, page))
  {
    hide Inv, UnlinkRange, Sees, Pte;
    var brk := m.spaces[i].brk;
    UnlinkRangeKeeps(m, i, page, brk);
    if UnlinkRange(m, i, page, brk).Ok? {
      var m1 := UnlinkRange(m, i, page, brk).value;
      SetBrkKeeps(m1, i, page);
      UnlinkedSees(m, m1, i, page, brk);
      hide Unlinked;
    }
  }

  lemma UnlinkedSees(m: Mem, n: Mem, i: nat, lo: nat, hi: nat)
    requires Unlinked(m, n, i, lo, hi)
    ensures forall j: nat, w: nat, p: Page :: Sees(n, j, w, p) <==> Sees(m, j, w, p) && !(j == i && lo <= w < hi)
  {
  }

  lemma NothingAbove(m: Mem, i: nat)
    requires Inv(m) && i in m.spaces
    ensures USER_BASE <= m.spaces[i].brk < STACK_BOTTOM
    ensures forall w: nat :: m.spaces[i].brk <= w < STACK_BOTTOM ==> !Pte(m, i, w).present
  {
    assert Mirror(m, i);
    hide Core;
  }

  lemma SetBrkKeeps(m: Mem, i: nat, brk: nat)
    requires Inv(m) && i in m.spaces && USER_BASE <= brk < STACK_BOTTOM
    requires forall w: nat :: brk <= w < m.spaces[i].brk ==> !Pte(m, i, w).present
    ensures Inv(SetBrk(m, i, brk))
    ensures forall j: nat, w: nat, p: Page :: Sees(SetBrk(m, i, brk), j, w, p) <==> Sees(m, j, w, p)
  {
    var n := SetBrk(m, i, brk);
    assert forall j: nat, d: nat :: Pde(n, j, d) == Pde(m, j, d);
    assert forall j: nat, w: nat :: Pte(n, j, w) == Pte(m, j, w);
    SameNames(m, n);
    assert n.spaces.Keys == m.spaces.Keys && |n.spaces.Keys| == |m.spaces.Keys|;
    hide Core;
    forall j | j in n.spaces ensures Mirror(n, j) {
      assert Mirror(m, j);
    }
  }
}
