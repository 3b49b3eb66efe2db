/**
 The invariant of src/kernel/memory.cpp, kept by every operation: memoryMap
 counts exactly the page table and directory entries that name a frame, tables
 and data never share a frame, and an entry is writable only if it is the one
 entry that names its frame.
 */
module PagingInvariant {
  import opened Outcome
  import opened Paging

  // ---------- counting references ----------

  // All slots of all live address spaces that name frame p.
  ghost function Refs(m: Mem, p: nat): (r: set<Slot>)
    ensures forall s :: s in r <==> Names(m, s, p)
  {
    (set i, d | i in m.spaces && 0 <= d < 1024 && Names(m, DirSlot(i, d), p) :: DirSlot(i, d)) +
    (set i, v | i in m.spaces && 0 <= v < VIRTUAL_LIMIT && Names(m, PteSlot(i, v), p) :: PteSlot(i, v))
  }

  // One slot changes: only the frames it named or names change their count.
  lemma OneSlot(m: Mem, n: Mem, s: Slot, p: nat)
    requires forall t :: t != s ==> (Names(n, t, p) <==> Names(m, t, p))
    ensures Names(m, s, p) == Names(n, s, p) ==> Refs(n, p) == Refs(m, p)
    ensures !Names(m, s, p) && Names(n, s, p) ==> |Refs(n, p)| == |Refs(m, p)| + 1
    ensures Names(m, s, p) && !Names(n, s, p) ==> |Refs(n, p)| == |Refs(m, p)| - 1
  {
    var before, after := Refs(m, p), Refs(n, p);
    forall t | t != s ensures t in before <==> t in after {
      assert Names(n, t, p) <==> Names(m, t, p);
    }
    OneElement(before, after, s);
  }

  lemma OneElement<T>(before: set<T>, after: set<T>, s: T)
    requires forall t :: t != s ==> (t in before <==> t in after)
    ensures (s in before) == (s in after) ==> before == after
    ensures s !in before && s in after ==> |after| == |before| + 1
    ensures s in before && s !in after ==> |after| == |before| - 1
  {
    if s !in before && s in after {
      assert after == before + {s};
    } else if s in before && s !in after {
      assert before == after + {s};
    } else {
      assert before == after;
    }
  }

  ghost function Zeros(refs: seq<uint8>): set<nat> {
    set p | 0 <= p < |refs| && refs[p] == 0
  }

  lemma ZerosAfter(refs: seq<uint8>, p: nat, x: uint8)
    requires p < |refs|
    ensures refs[p] == 0 && x != 0 ==> |Zeros(refs[p := x])| == |Zeros(refs)| - 1
    ensures refs[p] != 0 && x == 0 ==> |Zeros(refs[p := x])| == |Zeros(refs)| + 1
    ensures (refs[p] == 0) == (x == 0) ==> Zeros(refs[p := x]) == Zeros(refs)
  {
    var refs' := refs[p := x];
    if refs[p] == 0 && x != 0 {
      assert Zeros(refs) == Zeros(refs') + {p};
    } else if refs[p] != 0 && x == 0 {
      assert Zeros(refs') == Zeros(refs) + {p};
    } else {
      assert Zeros(refs') == Zeros(refs);
    }
  }

  // ---------- the invariant ----------

  // A directory entry names a frame no other directory entry names.
  ghost predicate OneOwner(m: Mem) {
    forall i: nat, d: nat, j: nat, e: nat, p: nat ::
      Names(m, DirSlot(i, d), p) && Names(m, DirSlot(j, e), p) ==> i == j && d == e
  }

  // Two pages of one process never share a frame.
  ghost predicate NoAlias(m: Mem) {
    forall i: nat, v: nat, w: nat, p: nat ::
      Names(m, PteSlot(i, v), p) && Names(m, PteSlot(i, w), p) ==> v == w
  }

  ghost predicate Counted(m: Mem) {
    && |m.phys| == |m.refs|
    && (forall p :: KERNEL_FRAMES <= p < |m.refs| ==> m.refs[p] == |Refs(m, p)|)
    && (forall p :: 0 <= p < KERNEL_FRAMES && p < |m.refs| ==> m.refs[p] == 1)
  }

  // copy-on-write: what a process can write without a fault, nobody else maps
  ghost predicate WriteSole(m: Mem) {
    forall i: nat, v: nat ::
      Pte(m, i, v).present && Pte(m, i, v).write ==>
        Pte(m, i, v).index < |m.refs| && m.refs[Pte(m, i, v).index] == 1
  }

  // The difference of KERNEL_FRAMES and startPage is memory that mappingInit marks
  // used without lowering freePages.
  ghost predicate Accounted(m: Mem) {
    && m.free == |Zeros(m.refs)| + KERNEL_FRAMES - m.start
    && 256 <= m.start <= 512
  }

  ghost predicate Core(m: Mem) {
    Shape(m) && OneOwner(m) && NoAlias(m) && Counted(m) && WriteSole(m) && Accounted(m)
  }

  // `vmap` mirrors the tables, and what is mapped lies in the heap or the stack.
  ghost predicate Mirror(m: Mem, i: nat) {
    && i in m.spaces
    && USER_BASE <= m.spaces[i].brk < STACK_BOTTOM
    && (forall v: nat :: v in m.spaces[i].vmap <==> Pte(m, i, v).present)
    && (forall v: nat :: v in m.spaces[i].vmap ==> v < m.spaces[i].brk || STACK_BOTTOM <= v < STACK_TOP)
  }

  ghost predicate Inv(m: Mem) {
    && Core(m)
    && |m.spaces| <= NR_TASKS
    && forall i :: i in m.spaces ==> Mirror(m, i)
  }

  // ---------- what a single write to a table changes ----------

  // Writing one entry of a table changes that page of that process and nothing
  // else: tables are not shared, neither with other tables nor with data.
  lemma SetPteEffect(m: Mem, i: nat, v: nat, e: Entry)
    requires Shape(m) && OneOwner(m) && USER_BASE <= v < VIRTUAL_LIMIT && HasTable(m, i, v / 1024)
    ensures forall j: nat, d: nat :: Pde(SetPte(m, i, v, e), j, d) == Pde(m, j, d)
    ensures forall j: nat, w: nat ::
              Pte(SetPte(m, i, v, e), j, w) == if j == i && w == v then e else Pte(m, j, w)
    ensures SetPte(m, i, v, e).spaces == m.spaces
  {
    var n := SetPte(m, i, v, e);
    var t := Pde(m, i, v / 1024).index;
    assert Names(m, DirSlot(i, v / 1024), t);
    forall j: nat, w: nat
      ensures Pte(n, j, w) == if j == i && w == v then e else Pte(m, j, w)
    {
      if USER_BASE <= w < VIRTUAL_LIMIT && Pde(m, j, w / 1024).present && Pde(m, j, w / 1024).index == t {
        assert Names(m, DirSlot(j, w / 1024), t);
        assert j == i && w / 1024 == v / 1024;
        if w != v {
          assert w % 1024 != v % 1024;
        }
      }
    }
  }

  // Filling a frame that holds no table changes no translation.
  lemma SetDataEffect(m: Mem, f: nat, page: Page)
    requires Shape(m) && f < |m.phys|
    requires forall i: nat, d: nat :: !Names(m, DirSlot(i, d), f)
    ensures forall j: nat, d: nat :: Pde(SetFrame(m, f, Data(page)), j, d) == Pde(m, j, d)
    ensures forall j: nat, w: nat :: Pte(SetFrame(m, f, Data(page)), j, w) == Pte(m, j, w)
  {
    forall j: nat, w: nat
      ensures Pte(SetFrame(m, f, Data(page)), j, w) == Pte(m, j, w)
    {
      if USER_BASE <= w < VIRTUAL_LIMIT && Pde(m, j, w / 1024).present {
        assert Names(m, DirSlot(j, w / 1024), Pde(m, j, w / 1024).index);
      }
    }
  }

  // What getPage hands out is a frame that no slot names.
  lemma GetPageFresh(m: Mem)
    requires Core(m) && GetPage(m).Ok?
    ensures var (n, f) := GetPage(m).value;
      && KERNEL_FRAMES <= f < |m.refs| && m.refs[f] == 0
      && (forall s :: !Names(m, s, f))
      && n == m.(refs := m.refs[f := 1], free := m.free - 1)
      && |Zeros(n.refs)| == |Zeros(m.refs)| - 1
  {
    var f := FirstFree(m.refs, m.start);
    assert m.refs[f] == 0;
    assert |Refs(m, f)| == 0;
    forall s ensures !Names(m, s, f) {
      assert s !in Refs(m, f);
    }
    ZerosAfter(m.refs, f, 1);
  }

  // ---------- steps that change one slot ----------

  // From m to n slot s stops naming what it named and, if f is given, names f.
  ghost predicate Moved(m: Mem, n: Mem, s: Slot, f: int) {
    && |n.phys| == |m.phys| && |n.refs| == |m.refs| && n.start == m.start
    && (forall t, q: nat :: Names(n, t, q) <==> if t == s then q == f else Names(m, t, q))
  }

  // Frames other than a fresh f keep their kind, and f gets the kind its slot needs.
  ghost predicate KindsKept(m: Mem, n: Mem, s: Slot, f: int) {
    && |n.phys| == |m.phys|
    && (forall q :: 0 <= q < |m.phys| && q != f ==> n.phys[q].Table? == m.phys[q].Table?)
    && (0 <= f < |n.phys| ==> n.phys[f].Table? == s.DirSlot?)
  }

  lemma MovedShape(m: Mem, n: Mem, s: Slot, f: int)
    requires Core(m) && Moved(m, n, s, f) && KindsKept(m, n, s, f)
    requires f >= 0 ==> KERNEL_FRAMES <= f < |m.refs| && forall t :: !Names(m, t, f)
    ensures Shape(n) && OneOwner(n) && NoAlias(n)
  {
  }

  // How the counters must move with the slot.
  lemma MovedCounted(m: Mem, n: Mem, s: Slot, f: int)
    requires Core(m) && Moved(m, n, s, f)
    requires f >= 0 ==> KERNEL_FRAMES <= f < |m.refs| && forall t :: !Names(m, t, f)
    requires forall p :: 0 <= p < |m.refs| ==>
               n.refs[p] == m.refs[p] + (if p == f then 1 else 0) - (if Names(m, s, p) then 1 else 0)
    ensures Counted(n)
  {
    forall p | KERNEL_FRAMES <= p < |n.refs|
      ensures n.refs[p] == |Refs(n, p)|
    {
      OneSlot(m, n, s, p);
    }
    forall p | 0 <= p < KERNEL_FRAMES && p < |n.refs|
      ensures n.refs[p] == 1
    {
      assert !Names(m, s, p);
    }
  }

  // A frame named by a slot has a nonzero counter; named by a second one, at least 2.
  lemma NamedCounts(m: Mem, s: Slot, p: nat)
    requires Core(m) && Names(m, s, p)
    ensures KERNEL_FRAMES <= p < |m.refs| && m.refs[p] >= 1
    ensures m.refs[p] == 1 ==> forall t :: Names(m, t, p) ==> t == s
  {
    assert s in Refs(m, p);
    if m.refs[p] == 1 {
      var others := Refs(m, p) - {s};
      assert |others| == 0;
      assert others == {};
      assert forall t :: t in Refs(m, p) ==> t == s || t in others;
    }
  }

  // Writing a data frame.
  lemma WrittenCore(m: Mem, n: Mem, f: nat)
    requires Core(m) && f < |m.phys| && m.phys[f].Data?
    requires n == m.(phys := n.phys) && |n.phys| == |m.phys| && n.phys[f].Data?
    requires forall q :: 0 <= q < |m.phys| && q != f ==> n.phys[q] == m.phys[q]
    requires forall s, p: nat :: Names(n, s, p) <==> Names(m, s, p)
    requires forall j: nat, w: nat :: Pte(n, j, w) == Pte(m, j, w)
    ensures Core(n)
  {
    hide Names, Pde, Pte;
    forall p: nat ensures Refs(n, p) == Refs(m, p) {
    }
  }

  // Writing a data frame keeps every count.
  lemma DataWritten(m: Mem, n: Mem, i: nat, v: nat, page: Page)
    requires Inv(m) && Allows(m, i, v, false) && n == SetFrame(m, Pte(m, i, v).index, Data(page))
    ensures Inv(n) && n.spaces == m.spaces && n.refs == m.refs
    ensures forall j: nat, w: nat :: Pte(n, j, w) == Pte(m, j, w)
  {
    var f := Pte(m, i, v).index;
    InvIs(m);
    DataFrame(m, i, v);
    hide Core, Shape, Pte, Pde, Mirror;
    SetDataEffect(m, f, page);
    SameEntries(m, n);
    hide Inv, Names;
    WrittenCore(m, n, f);
    InvCarries(m, n);
  }

  lemma InvIs(m: Mem)
    requires Inv(m)
    ensures Core(m) && Shape(m) && |m.phys| == |m.refs|
  {
  }

  // A frame that a page of a process lies in is no table.
  lemma DataFrame(m: Mem, i: nat, v: nat)
    requires Shape(m) && Pte(m, i, v).present
    ensures var f := Pte(m, i, v).index;
      Names(m, PteSlot(i, v), f) && KERNEL_FRAMES <= f < |m.phys| && m.phys[f].Data? && forall j: nat, d: nat :: !Names(m, DirSlot(j, d), f)
  {
    var f := Pte(m, i, v).index;
    assert Names(m, PteSlot(i, v), f);
    hide Pte;
  }

  lemma SameEntries(m: Mem, n: Mem)
    requires forall j: nat, d: nat :: Pde(n, j, d) == Pde(m, j, d)
    requires forall j: nat, w: nat :: Pte(n, j, w) == Pte(m, j, w)
    ensures forall s, p: nat :: Names(n, s, p) <==> Names(m, s, p)
  {
    hide Pde, Pte;
  }

  // ---------- getPte with create ----------

  lemma EnsureTableKeeps(m: Mem, i: nat, v: nat)
    requires Core(m) && i in m.spaces && USER_BASE <= v < VIRTUAL_LIMIT
    ensures EnsureTable(m, i, v).Halt? ==> EnsureTable(m, i, v).why == OutOfMemory
    ensures EnsureTable(m, i, v).Ok? ==>
      var n := EnsureTable(m, i, v).value;
      && Core(n) && HasTable(n, i, v / 1024)
      && n.spaces.Keys == m.spaces.Keys
      && (forall j :: j in m.spaces ==> n.spaces[j].vmap == m.spaces[j].vmap && n.spaces[j].brk == m.spaces[j].brk)
      && (forall j: nat, w: nat :: Pte(n, j, w) == Pte(m, j, w))
      && SameData(m, n)
  {
    if Pde(m, i, v / 1024).present {
      assert Names(m, DirSlot(i, v / 1024), Pde(m, i, v / 1024).index);
    } else if EnsureTable(m, i, v).Ok? {
      NewTable(m, i, v);
    }
  }

  // Frames that hold data and are in use keep their contents.
  ghost predicate SameData(m: Mem, n: Mem) {
    && |n.phys| == |m.phys|
    && forall s: Slot, p: nat :: s.PteSlot? && Names(m, s, p) && p < |m.phys| ==> n.phys[p] == m.phys[p]
  }

  lemma NewTable(m: Mem, i: nat, v: nat)
    requires Core(m) && i in m.spaces && USER_BASE <= v < VIRTUAL_LIMIT
    requires !Pde(m, i, v / 1024).present && EnsureTable(m, i, v).Ok?
    ensures var n := EnsureTable(m, i, v).value;
      && Core(n) && HasTable(n, i, v / 1024)
      && n.spaces.Keys == m.spaces.Keys
      && (forall j: nat, w: nat :: Pte(n, j, w) == Pte(m, j, w))
      && SameData(m, n)
  {
    var (m1, f) := GetPage(m).value;
    var n := EnsureTable(m, i, v).value;
    var s := DirSlot(i, v / 1024);
    GetPageFresh(m);
    NewTableEffect(m, n, i, v / 1024, f);
    MovedShape(m, n, s, f);
    MovedCounted(m, n, s, f);
    SoleAfter(m, n);
  }

  lemma NewTableEffect(m: Mem, n: Mem, i: nat, d: nat, f: nat)
    requires Core(m) && i in m.spaces && FIRST_USER_PDE <= d < SELF_PDE && !Pde(m, i, d).present
    requires KERNEL_FRAMES <= f < |m.refs| && forall s :: !Names(m, s, f)
    requires n.phys == m.phys[f := Table(EmptyTable())] && |n.refs| == |m.refs| && n.start == m.start
    requires n.spaces == SetPde(m, i, d, Entry(true, true, f)).spaces
    ensures forall j: nat, w: nat :: Pte(n, j, w) == Pte(m, j, w)
    ensures Moved(m, n, DirSlot(i, d), f) && KindsKept(m, n, DirSlot(i, d), f)
    ensures SameData(m, n)
  {
    assert forall j: nat, e: nat :: Pde(n, j, e) == if j == i && e == d then Entry(true, true, f) else Pde(m, j, e);
    forall j: nat, w: nat
      ensures Pte(n, j, w) == Pte(m, j, w)
    {
      if USER_BASE <= w < VIRTUAL_LIMIT && Pde(m, j, w / 1024).present {
        assert Names(m, DirSlot(j, w / 1024), Pde(m, j, w / 1024).index);
      }
    }
    forall t: Slot, q: nat
      ensures Names(n, t, q) <==> if t == DirSlot(i, d) then q == f else Names(m, t, q)
    {
    }
  }

  // Counters of frames that are mapped writable stay 1 when nobody else gains them.
  lemma SoleAfter(m: Mem, n: Mem)
    requires Core(m) && |n.refs| == |m.refs|
    requires forall j: nat, w: nat :: Pte(n, j, w) == Pte(m, j, w)
    requires forall s: Slot, p: nat :: s.PteSlot? && Names(m, s, p) && p < |m.refs| ==> n.refs[p] == m.refs[p]
    ensures WriteSole(n)
  {
    forall j: nat, w: nat | Pte(n, j, w).present && Pte(n, j, w).write
      ensures Pte(n, j, w).index < |n.refs| && n.refs[Pte(n, j, w).index] == 1
    {
      assert Names(m, PteSlot(j, w), Pte(m, j, w).index);
    }
  }

  // ---------- linkPage and unlinkPage ----------

  // n differs from m only in the translation of page v of process i.
  ghost predicate OnePage(m: Mem, n: Mem, i: nat, v: nat, e: Entry) {
    && n.spaces.Keys == m.spaces.Keys
    && (forall j: nat, w: nat :: Pte(n, j, w) == if j == i && w == v then e else Pte(m, j, w))
    && (forall j: nat, d: nat :: Pde(n, j, d) == Pde(m, j, d))
    && (forall j :: j in m.spaces ==> n.spaces[j].brk == m.spaces[j].brk)
    && (forall j :: j in m.spaces && j != i ==> n.spaces[j].vmap == m.spaces[j].vmap)
  }

  lemma OnePageMoves(m: Mem, n: Mem, i: nat, v: nat, e: Entry, f: int)
    requires OnePage(m, n, i, v, e)
    requires |n.phys| == |m.phys| && |n.refs| == |m.refs| && n.start == m.start
    requires f == if e.present then e.index else -1
    ensures Moved(m, n, PteSlot(i, v), f)
  {
    forall t: Slot, q: nat
      ensures Names(n, t, q) <==> if t == PteSlot(i, v) then q == f else Names(m, t, q)
    {
    }
  }

  // Which pages a process may have mapped.
  predicate InRange(m: Mem, i: nat, v: nat) {
    i in m.spaces && USER_BASE <= v && (v < m.spaces[i].brk || STACK_BOTTOM <= v < STACK_TOP)
  }

  // linkPage maps a missing page to a fresh frame and leaves a present one alone;
  // from a state that keeps the invariant neither of its asserts can fail.
  lemma LinkPageKeeps(m: Mem, i: nat, v: nat, junk: Page)
    requires Inv(m) && InRange(m, i, v)
    ensures LinkPage(m, i, v, junk).Halt? ==> LinkPage(m, i, v, junk).why == OutOfMemory
    ensures LinkPage(m, i, v, junk).Ok? ==>
      var n := LinkPage(m, i, v, junk).value;
      && Inv(n) && SameData(m, n)
      && n.spaces.Keys == m.spaces.Keys
      && (forall j :: j in m.spaces ==> n.spaces[j].brk == m.spaces[j].brk)
      && (forall j: nat, w: nat :: !(j == i && w == v) ==> Pte(n, j, w) == Pte(m, j, w))
      && Pte(n, i, v).present
      && (Pte(m, i, v).present ==> Pte(n, i, v) == Pte(m, i, v))
      && (!Pte(m, i, v).present ==> Pte(n, i, v).write && n.phys[Pte(n, i, v).index] == Data(junk))
  {
    EnsureTableKeeps(m, i, v);
    assert Mirror(m, i);
    if EnsureTable(m, i, v).Ok? {
      var m1 := EnsureTable(m, i, v).value;
      InvCarries(m, m1);
      if LinkPage(m, i, v, junk).Ok? && !Pte(m, i, v).present {
        FreshPage(m1, i, v, junk);
        SameDataTrans(m, m1, LinkPage(m, i, v, junk).value);
      }
    }
  }

  lemma InvCarries(m: Mem, n: Mem)
    requires Inv(m) && Core(n) && n.spaces.Keys == m.spaces.Keys
    requires forall j :: j in m.spaces ==> n.spaces[j].vmap == m.spaces[j].vmap && n.spaces[j].brk == m.spaces[j].brk
    requires forall j: nat, w: nat :: Pte(n, j, w) == Pte(m, j, w)
    ensures Inv(n)
  {
    assert |n.spaces.Keys| == |m.spaces.Keys|;
    forall j | j in n.spaces ensures Mirror(n, j) {
      assert Mirror(m, j);
    }
  }

  lemma SameDataTrans(m: Mem, n: Mem, k: Mem)
    requires SameData(m, n) && SameData(n, k)
    requires forall j: nat, w: nat :: Pte(n, j, w) == Pte(m, j, w)
    ensures SameData(m, k)
  {
    forall s: Slot, p: nat | s.PteSlot? && Names(m, s, p) && p < |m.phys|
      ensures k.phys[p] == m.phys[p]
    {
      assert Names(n, s, p);
    }
  }

  // The last steps of linkPage, once the table exists.
  lemma FreshPage(m: Mem, i: nat, v: nat, junk: Page)
    requires Inv(m) && InRange(m, i, v) && HasTable(m, i, v / 1024) && !Pte(m, i, v).present
    requires GetPage(SetVmap(m, i, m.spaces[i].vmap + {v})).Ok?
    ensures var (m3, f) := GetPage(SetVmap(m, i, m.spaces[i].vmap + {v})).value;
      var n := SetFrame(SetPte(m3, i, v, Entry(true, true, f)), f, Data(junk));
      && Inv(n) && SameData(m, n) && OnePage(m, n, i, v, Entry(true, true, f))
      && n.phys[f] == Data(junk)
  {
    hide *;
    InvIs(m);
    RangeOf(m, i, v);
    var m2 := SetVmap(m, i, m.spaces[i].vmap + {v});
    VmapEffect(m, i, m.spaces[i].vmap + {v});
    VmapSet(m, i, m.spaces[i].vmap + {v});
    var (m3, f) := GetPage(m2).value;
    GetPageFresh(m2);
    TableKept(m, m2, i, v / 1024);
    TableKept(m2, m3, i, v / 1024);
    SetPteKeeps(m3, i, v, Entry(true, true, f));
    var n := SetFrame(SetPte(m3, i, v, Entry(true, true, f)), f, Data(junk));
    SetFrameKeeps(SetPte(m3, i, v, Entry(true, true, f)), f, Data(junk));
    FreshPageEffect(m2, m3, n, i, v, f, junk);
    FreshFrom(m, m2, n, i, v, f);
    PageToFresh(m, n, i, v, f);
  }

  lemma VmapSet(m: Mem, i: nat, vmap: set<nat>)
    requires i in m.spaces
    ensures SetVmap(m, i, vmap) == m.(spaces := m.spaces[i := m.spaces[i].(vmap := vmap)])
  {
  }

  lemma RangeOf(m: Mem, i: nat, v: nat)
    requires Inv(m) && InRange(m, i, v)
    ensures i in m.spaces && USER_BASE <= v < STACK_TOP < VIRTUAL_LIMIT
  {
    assert Mirror(m, i);
  }

  lemma TableKept(m: Mem, n: Mem, i: nat, d: nat)
    requires HasTable(m, i, d) && n.phys == m.phys && i in n.spaces && n.spaces[i].dir == m.spaces[i].dir
    ensures HasTable(n, i, d)
  {
  }

  // Marking the page in vmap before the frame is taken makes no difference.
  lemma FreshFrom(m: Mem, m2: Mem, n: Mem, i: nat, v: nat, f: nat)
    requires i in m.spaces && m2 == m.(spaces := m.spaces[i := m.spaces[i].(vmap := m.spaces[i].vmap + {v})])
    requires forall j: nat, d: nat :: Pde(m2, j, d) == Pde(m, j, d)
    requires forall j: nat, w: nat :: Pte(m2, j, w) == Pte(m, j, w)
    requires OnePage(m2, n, i, v, Entry(true, true, f)) && KindsKept(m2, n, PteSlot(i, v), f) && SameData(m2, n)
    requires n.spaces == m2.spaces && forall s :: !Names(m2, s, f)
    ensures OnePage(m, n, i, v, Entry(true, true, f)) && KindsKept(m, n, PteSlot(i, v), f) && SameData(m, n)
    ensures n.spaces[i].vmap == m.spaces[i].vmap + {v} && forall s :: !Names(m, s, f)
  {
    SameEntries(m, m2);
    hide Pte, Pde, Names;
    forall s ensures !Names(m, s, f) {
      assert Names(m2, s, f) <==> Names(m, s, f);
    }
  }

  lemma SetFrameKeeps(m: Mem, f: nat, frame: Frame)
    requires f < |m.phys|
    ensures var n := SetFrame(m, f, frame); n.refs == m.refs && n.free == m.free && n.start == m.start && n.spaces == m.spaces
  {
  }

  // A missing page becomes the only user of a fresh frame.
  lemma PageToFresh(m: Mem, n: Mem, i: nat, v: nat, f: nat)
    requires Inv(m) && InRange(m, i, v) && !Pte(m, i, v).present
    requires KERNEL_FRAMES <= f < |m.refs| && m.refs[f] == 0 && forall s :: !Names(m, s, f)
    requires OnePage(m, n, i, v, Entry(true, true, f)) && KindsKept(m, n, PteSlot(i, v), f)
    requires n.refs == m.refs[f := 1] && n.free == m.free - 1 && n.start == m.start
    requires n.spaces[i].vmap == m.spaces[i].vmap + {v}
    ensures Inv(n)
  {
    OnePageMoves(m, n, i, v, Entry(true, true, f), f);
    MovedShape(m, n, PteSlot(i, v), f);
    MovedCounted(m, n, PteSlot(i, v), f);
    ZerosAfter(m.refs, f, 1);
    SoleExcept(m, n, i, v);
    MirrorAfter(m, n, i, v, Entry(true, true, f));
  }

  lemma FreshPageEffect(m: Mem, m3: Mem, n: Mem, i: nat, v: nat, f: nat, junk: Page)
    requires Core(m) && HasTable(m, i, v / 1024) && USER_BASE <= v < VIRTUAL_LIMIT
    requires KERNEL_FRAMES <= f < |m.refs| && forall s :: !Names(m, s, f)
    requires m3 == m.(refs := m.refs[f := 1], free := m.free - 1)
    requires n == SetFrame(SetPte(m3, i, v, Entry(true, true, f)), f, Data(junk))
    ensures OnePage(m, n, i, v, Entry(true, true, f)) && n.spaces == m.spaces
    ensures KindsKept(m, n, PteSlot(i, v), f) && SameData(m, n) && n.phys[f] == Data(junk)
  {
    var filled := SetFrame(m, f, Data(junk));
    SetDataEffect(m, f, junk);
    assert forall s, p: nat :: Names(filled, s, p) <==> Names(m, s, p);
    var t := Pde(m, i, v / 1024).index;
    assert Names(m, DirSlot(i, v / 1024), t);
    SetPteEffect(filled, i, v, Entry(true, true, f));
    var k := SetPte(filled, i, v, Entry(true, true, f));
    assert n.phys == k.phys;
    assert forall j: nat, d: nat :: Pde(n, j, d) == Pde(k, j, d);
    assert forall j: nat, w: nat :: Pte(n, j, w) == Pte(k, j, w);
    forall s: Slot, p: nat | s.PteSlot? && Names(m, s, p) && p < |m.phys|
      ensures n.phys[p] == m.phys[p]
    {
      assert m.phys[t].Table? && m.phys[p].Data?;
    }
  }

  // Writable entries other than page v keep their counter at 1: what changes is
  // only the counter of a free frame or of the frame that page v named.
  lemma SoleExcept(m: Mem, n: Mem, i: nat, v: nat)
    requires Core(m) && |n.refs| == |m.refs|
    requires forall j: nat, w: nat :: !(j == i && w == v) ==> Pte(n, j, w) == Pte(m, j, w)
    requires Pte(n, i, v).present && Pte(n, i, v).write ==>
               Pte(n, i, v).index < |n.refs| && n.refs[Pte(n, i, v).index] == 1
    requires forall q: nat :: q < |m.refs| && n.refs[q] != m.refs[q] ==> m.refs[q] == 0 || Names(m, PteSlot(i, v), q)
    ensures WriteSole(n)
  {
    forall j: nat, w: nat | Pte(n, j, w).present && Pte(n, j, w).write && !(j == i && w == v)
      ensures Pte(n, j, w).index < |n.refs| && n.refs[Pte(n, j, w).index] == 1
    {
      NamedCounts(m, PteSlot(j, w), Pte(m, j, w).index);
    }
  }

  lemma MirrorAfter(m: Mem, n: Mem, i: nat, v: nat, e: Entry)
    requires Inv(m) && OnePage(m, n, i, v, e) && i in m.spaces
    requires n.spaces[i].vmap == if e.present then m.spaces[i].vmap + {v} else m.spaces[i].vmap - {v}
    requires e.present ==> InRange(m, i, v)
    ensures forall j :: j in n.spaces ==> Mirror(n, j)
    ensures |n.spaces| == |m.spaces|
  {
    assert |n.spaces.Keys| == |m.spaces.Keys|;
    forall j | j in n.spaces ensures Mirror(n, j) {
      assert Mirror(m, j);
    }
  }

  lemma VmapEffect(m: Mem, i: nat, vmap: set<nat>)
    requires Core(m) && i in m.spaces
    ensures var n := SetVmap(m, i, vmap);
      && Core(n)
      && (forall j: nat, d: nat :: Pde(n, j, d) == Pde(m, j, d))
      && (forall j: nat, w: nat :: Pte(n, j, w) == Pte(m, j, w))
  {
    var n := SetVmap(m, i, vmap);
    assert forall j: nat, d: nat :: Pde(n, j, d) == Pde(m, j, d);
    assert forall j: nat, w: nat :: Pte(n, j, w) == Pte(m, j, w);
    SameNames(m, n);
  }

  // The counting invariant only depends on the tables and the counters.
  lemma SameNames(m: Mem, n: Mem)
    requires Core(m) && n.refs == m.refs && n.phys == m.phys && n.start == m.start && n.free == m.free
    requires forall j: nat, d: nat :: Pde(n, j, d) == Pde(m, j, d)
    requires forall j: nat, w: nat :: Pte(n, j, w) == Pte(m, j, w)
    ensures Core(n)
  {
    assert forall s, p: nat :: Names(n, s, p) <==> Names(m, s, p);
    forall p: nat ensures Refs(n, p) == Refs(m, p) {
    }
  }

  // ---------- putPage ----------

  lemma RangeSize(s: set<nat>, lo: nat, hi: nat)
    requires lo <= hi && forall x :: x in s ==> lo <= x < hi
    ensures |s| <= hi - lo
    decreases hi - lo
  {
    if lo == hi {
      assert s == {};
    } else {
      RangeSize(s - {lo}, lo + 1, hi);
    }
  }

  // The last assert of putPage holds as long as the accounting does.
  lemma FreeInRange(m: Mem)
    requires Accounted(m) && KERNEL_FRAMES <= |m.refs|
    requires forall p :: 0 <= p < KERNEL_FRAMES ==> m.refs[p] != 0
    ensures 0 < m.free < |m.refs|
  {
    RangeSize(Zeros(m.refs), KERNEL_FRAMES, |m.refs|);
  }

  lemma PutPageWorks(m: Mem, p: nat)
    requires Accounted(m) && KERNEL_FRAMES <= p < |m.refs| && m.refs[p] >= 1
    requires forall q :: 0 <= q < KERNEL_FRAMES ==> m.refs[q] != 0
    ensures PutPage(m, p).Ok?
    ensures var n := PutPage(m, p).value;
      n.refs == m.refs[p := m.refs[p] - 1] && n == m.(refs := n.refs, free := n.free) && Accounted(n)
  {
    var refs := m.refs[p := m.refs[p] - 1];
    ZerosAfter(m.refs, p, m.refs[p] - 1);
    FreeInRange(m.(refs := refs, free := if refs[p] == 0 then m.free + 1 else m.free));
  }

  // unlinkPage removes the page, whether it was present or not, and fails an assert
  // exactly for a page past the end of vmap; it can still run out of memory, for the
  // table it creates.
  lemma UnlinkPageKeeps(m: Mem, i: nat, v: nat)
    requires Inv(m) && i in m.spaces && USER_BASE <= v < VIRTUAL_LIMIT
    ensures v >= VMAP_LIMIT ==> UnlinkPage(m, i, v).Halt?
    ensures UnlinkPage(m, i, v).Halt? ==>
      UnlinkPage(m, i, v).why == if EnsureTable(m, i, v).Halt? then OutOfMemory else AssertFailed
    ensures EnsureTable(m, i, v).Ok? && v < VMAP_LIMIT ==> UnlinkPage(m, i, v).Ok?
    ensures UnlinkPage(m, i, v).Ok? ==>
      var n := UnlinkPage(m, i, v).value;
      && Inv(n) && SameData(m, n)
      && n.spaces.Keys == m.spaces.Keys
      && (forall j :: j in m.spaces ==> n.spaces[j].brk == m.spaces[j].brk)
      && (forall j: nat, w: nat :: !(j == i && w == v) ==> Pte(n, j, w) == Pte(m, j, w))
      && !Pte(n, i, v).present
  {
    EnsureTableKeeps(m, i, v);
    assert Mirror(m, i);
    if EnsureTable(m, i, v).Ok? {
      var m1 := EnsureTable(m, i, v).value;
      InvCarries(m, m1);
      if Pte(m, i, v).present && v < VMAP_LIMIT {
        DropPage(m1, i, v);
        SameDataTrans(m, m1, UnlinkPage(m, i, v).value);
      }
    }
  }

  lemma DropPage(m: Mem, i: nat, v: nat)
    requires Inv(m) && HasTable(m, i, v / 1024) && Pte(m, i, v).present
    ensures var e := Pte(m, i, v); var m2 := SetPte(m, i, v, e.(present := false));
      var r := PutPage(SetVmap(m2, i, m2.spaces[i].vmap - {v}), e.index);
      && r.Ok? && Inv(r.value) && SameData(m, r.value)
      && OnePage(m, r.value, i, v, e.(present := false))
  {
    hide *;
    var e := Pte(m, i, v);
    DropReady(m, i, v);
    var m2 := SetPte(m, i, v, e.(present := false));
    var m3 := SetVmap(m2, i, m2.spaces[i].vmap - {v});
    PutPageWorks(m3, e.index);
    Dropped(m, PutPage(m3, e.index).value, i, v);
  }

  lemma Dropped(m: Mem, n: Mem, i: nat, v: nat)
    requires Inv(m) && HasTable(m, i, v / 1024) && Pte(m, i, v).present && USER_BASE <= v < VIRTUAL_LIMIT && i in m.spaces
    requires Pte(m, i, v).index < |m.refs| && m.refs[Pte(m, i, v).index] >= 1
    requires n.phys == SetPte(m, i, v, Pte(m, i, v).(present := false)).phys
    requires n.spaces == m.spaces[i := m.spaces[i].(vmap := m.spaces[i].vmap - {v})]
    requires n.refs == m.refs[Pte(m, i, v).index := m.refs[Pte(m, i, v).index] - 1] && n.start == m.start && Accounted(n)
    ensures Inv(n) && SameData(m, n) && OnePage(m, n, i, v, Pte(m, i, v).(present := false))
  {
    InvIs(m);
    hide Inv, Core, Shape, Pte, Pde, HasTable, Names, SetPte, SameData, KindsKept, OnePage, Accounted;
    DropPageEffect(m, n, i, v, Pte(m, i, v).(present := false));
    PageGone(m, n, i, v, Pte(m, i, v).(present := false));
  }

  lemma DropReady(m: Mem, i: nat, v: nat)
    requires Inv(m) && HasTable(m, i, v / 1024) && Pte(m, i, v).present
    ensures USER_BASE <= v < VIRTUAL_LIMIT && i in m.spaces
    ensures KERNEL_FRAMES <= Pte(m, i, v).index < |m.refs| && m.refs[Pte(m, i, v).index] >= 1
    ensures var k := SetPte(m, i, v, Pte(m, i, v).(present := false));
      var l := SetVmap(k, i, k.spaces[i].vmap - {v});
      && k.spaces == m.spaces && l == k.(spaces := l.spaces) && l.refs == m.refs && l.start == m.start
      && l.spaces == m.spaces[i := m.spaces[i].(vmap := m.spaces[i].vmap - {v})]
      && Accounted(l) && |m.refs| >= KERNEL_FRAMES
      && forall q :: 0 <= q < KERNEL_FRAMES ==> m.refs[q] != 0
  {
    DataFrame(m, i, v);
    NamedCounts(m, PteSlot(i, v), Pte(m, i, v).index);
    assert Mirror(m, i);
  }

  lemma DropPageEffect(m: Mem, n: Mem, i: nat, v: nat, e: Entry)
    requires Core(m) && USER_BASE <= v < VIRTUAL_LIMIT && HasTable(m, i, v / 1024)
    requires n.phys == SetPte(m, i, v, e).phys && n.spaces == m.spaces[i := m.spaces[i].(vmap := m.spaces[i].vmap - {v})]
    ensures OnePage(m, n, i, v, e) && KindsKept(m, n, PteSlot(i, v), -1) && SameData(m, n)
  {
    SetPteEffect(m, i, v, e);
    var k := SetPte(m, i, v, e);
    assert forall j: nat, d: nat :: Pde(n, j, d) == Pde(k, j, d);
    assert forall j: nat, w: nat :: Pte(n, j, w) == Pte(k, j, w);
    assert Names(m, DirSlot(i, v / 1024), Pde(m, i, v / 1024).index);
  }

  lemma PageGone(m: Mem, n: Mem, i: nat, v: nat, gone: Entry)
    requires Inv(m) && Pte(m, i, v).present && i in m.spaces
    requires !gone.present && OnePage(m, n, i, v, gone) && KindsKept(m, n, PteSlot(i, v), -1)
    requires Pte(m, i, v).index < |m.refs| && m.refs[Pte(m, i, v).index] >= 1
    requires n.refs == m.refs[Pte(m, i, v).index := m.refs[Pte(m, i, v).index] - 1]
    requires Accounted(n) && n.start == m.start
    requires n.spaces[i].vmap == m.spaces[i].vmap - {v}
    ensures Inv(n)
  {
    OnePageMoves(m, n, i, v, gone, -1);
    MovedShape(m, n, PteSlot(i, v), -1);
    MovedCounted(m, n, PteSlot(i, v), -1);
    SoleExcept(m, n, i, v);
    MirrorAfter(m, n, i, v, gone);
  }

  // ---------- pageFault and user accesses ----------

  // What process j sees in page w.
  ghost predicate Sees(m: Mem, j: nat, w: nat, page: Page) {
    Pte(m, j, w).present && Pte(m, j, w).index < |m.phys| && m.phys[Pte(m, j, w).index] == Data(page)
  }

  // Apart from page v of process i, everybody sees what they saw.
  ghost predicate OthersSee(m: Mem, n: Mem, i: nat, v: nat) {
    && n.spaces.Keys == m.spaces.Keys
    && (forall j :: j in m.spaces ==> n.spaces[j].brk == m.spaces[j].brk)
    && (forall j: nat, w: nat, page: Page :: !(j == i && w == v) ==> (Sees(n, j, w, page) <==> Sees(m, j, w, page)))
  }

  lemma DataSeen(m: Mem, n: Mem, i: nat, v: nat)
    requires Shape(m) && SameData(m, n) && n.spaces.Keys == m.spaces.Keys
    requires forall j :: j in m.spaces ==> n.spaces[j].brk == m.spaces[j].brk
    requires forall j: nat, w: nat :: !(j == i && w == v) ==> Pte(n, j, w) == Pte(m, j, w)
    ensures OthersSee(m, n, i, v)
  {
    forall j: nat, w: nat, page: Page | !(j == i && w == v)
      ensures Sees(n, j, w, page) <==> Sees(m, j, w, page)
    {
      if Pte(m, j, w).present {
        assert Names(m, PteSlot(j, w), Pte(m, j, w).index);
      }
    }
  }

  // A write fault on a present page: copy-on-write.
  lemma SplitKeeps(m: Mem, i: nat, v: nat)
    requires Inv(m) && HasTable(m, i, v / 1024) && USER_BASE <= v < VIRTUAL_LIMIT
    requires Pte(m, i, v).present && Pte(m, i, v).index < |m.refs| && m.refs[Pte(m, i, v).index] > 1
    requires CopyPage(m, Pte(m, i, v).index).Ok?
    ensures var p := Pte(m, i, v).index; var (m1, f) := CopyPage(m, p).value;
      && m1.refs[p] > 0 && HasTable(m1, i, v / 1024) && HasTable(m1.(refs := m1.refs[p := m1.refs[p] - 1]), i, v / 1024)
      && |m1.phys| == |m.phys| && f < |m1.phys|
      && var n := SetPte(m1.(refs := m1.refs[p := m1.refs[p] - 1]), i, v, Entry(true, true, f));
      && Inv(n) && SameData(m, n) && OnePage(m, n, i, v, Entry(true, true, f)) && n.phys[f] == m.phys[p]
  {
    hide *;
    InvIs(m);
    InTheMap(m, i, v);
    var p := Pte(m, i, v).index;
    var (m1, f) := CopyPage(m, p).value;
    CopyFresh(m, i, v);
    var refs := m1.refs[p := m1.refs[p] - 1];
    SplitEffect(m, m1, refs, i, v, f);
    var n := SetPte(m1.(refs := refs), i, v, Entry(true, true, f));
    SetPteKeeps(m1.(refs := refs), i, v, Entry(true, true, f));
    SplitsInto(m, n, i, v, f);
    SplitInv(m, n, i, v, f);
  }

  lemma SplitsInto(m: Mem, n: Mem, i: nat, v: nat, f: nat)
    requires KERNEL_FRAMES <= f < |m.refs| && m.refs[f] == 0 && forall s :: !Names(m, s, f)
    requires Names(m, PteSlot(i, v), Pte(m, i, v).index) && Pte(m, i, v).index < |m.refs| && m.refs[Pte(m, i, v).index] > 1
    requires n.refs == m.refs[f := 1][Pte(m, i, v).index := m.refs[Pte(m, i, v).index] - 1]
    requires n.free == m.free - 1 && n.start == m.start && n.spaces == m.spaces
    requires OnePage(m, n, i, v, Entry(true, true, f)) && KindsKept(m, n, PteSlot(i, v), f)
    ensures Splits(m, n, i, v, f)
  {
    hide Pte, Names, OnePage, KindsKept;
  }

  lemma SetPteKeeps(m: Mem, i: nat, v: nat, e: Entry)
    requires HasTable(m, i, v / 1024)
    ensures var n := SetPte(m, i, v, e); |n.phys| == |m.phys| && n.refs == m.refs && n.free == m.free && n.start == m.start && n.spaces == m.spaces
  {
  }

  lemma InTheMap(m: Mem, i: nat, v: nat)
    requires Inv(m) && HasTable(m, i, v / 1024) && Pte(m, i, v).present
    ensures InRange(m, i, v) && v in m.spaces[i].vmap
  {
    assert Mirror(m, i);
  }

  // What copyPage has done.
  lemma CopyFresh(m: Mem, i: nat, v: nat)
    requires Core(m) && Pte(m, i, v).present && Pte(m, i, v).index < |m.refs| && CopyPage(m, Pte(m, i, v).index).Ok?
    ensures |m.phys| == |m.refs| && Names(m, PteSlot(i, v), Pte(m, i, v).index)
    ensures var p := Pte(m, i, v).index; var (m1, f) := CopyPage(m, p).value;
      && KERNEL_FRAMES <= f < |m.refs| && m.refs[f] == 0 && (forall s :: !Names(m, s, f))
      && m1 == m.(refs := m.refs[f := 1], free := m.free - 1, phys := m.phys[f := m.phys[p]])
  {
    GetPageFresh(m);
    hide Pte, FirstFree;
  }

  lemma SplitEffect(m: Mem, m1: Mem, refs: seq<uint8>, i: nat, v: nat, f: nat)
    requires Inv(m) && HasTable(m, i, v / 1024) && USER_BASE <= v < VIRTUAL_LIMIT
    requires Names(m, PteSlot(i, v), Pte(m, i, v).index)
    requires KERNEL_FRAMES <= f < |m.refs| && forall s :: !Names(m, s, f)
    requires |m1.refs| == |m.refs| == |refs| && m1.start == m.start && m1.spaces == m.spaces
    requires m1.phys == m.phys[f := m.phys[Pte(m, i, v).index]]
    ensures HasTable(m1, i, v / 1024) && HasTable(m1.(refs := refs), i, v / 1024)
    ensures var n := SetPte(m1.(refs := refs), i, v, Entry(true, true, f));
      && OnePage(m, n, i, v, Entry(true, true, f)) && KindsKept(m, n, PteSlot(i, v), f)
      && SameData(m, n) && n.phys[f] == m.phys[Pte(m, i, v).index]
  {
    var p := Pte(m, i, v).index;
    SplitFrame(m, m1, i, v, f);
    InvIs(m);
    ShapeOf(m, m1);
    var k := SetPte(m1, i, v, Entry(true, true, f));
    var n := SetPte(m1.(refs := refs), i, v, Entry(true, true, f));
    assert n.phys == k.phys && n.spaces == k.spaces;
    hide Inv, Core, Shape, OneOwner;
    SetPteEffect(m1, i, v, Entry(true, true, f));
    DataStays(m, m1, n, i, v, f);
    hide SetPte, HasTable, Names;
    forall j: nat, d: nat ensures Pde(n, j, d) == Pde(k, j, d) {
    }
    forall j: nat, w: nat ensures Pte(n, j, w) == Pte(k, j, w) {
    }
    hide Pde, Pte;
  }

  lemma ShapeOf(m: Mem, m1: Mem)
    requires Shape(m) && OneOwner(m) && |m1.refs| == |m.refs| && |m1.phys| == |m.phys| && m1.start == m.start
    requires forall s, q: nat :: Names(m1, s, q) <==> Names(m, s, q)
    requires forall q: nat :: q < |m.phys| && (exists s :: Names(m, s, q)) ==> m1.phys[q] == m.phys[q]
    ensures Shape(m1) && OneOwner(m1)
  {
    hide Names;
  }

  // Frame f has got a copy of the data.
  lemma SplitFrame(m: Mem, m1: Mem, i: nat, v: nat, f: nat)
    requires Inv(m) && HasTable(m, i, v / 1024) && Names(m, PteSlot(i, v), Pte(m, i, v).index)
    requires KERNEL_FRAMES <= f < |m.refs| && forall s :: !Names(m, s, f)
    requires |m1.refs| == |m.refs| && m1.spaces == m.spaces && m1.phys == m.phys[f := m.phys[Pte(m, i, v).index]]
    ensures f < |m.phys| == |m.refs| && Pte(m, i, v).index < |m.phys| && m.phys[Pte(m, i, v).index].Data?
    ensures HasTable(m1, i, v / 1024)
    ensures forall j: nat, d: nat :: Pde(m1, j, d) == Pde(m, j, d)
    ensures forall j: nat, w: nat :: Pte(m1, j, w) == Pte(m, j, w)
    ensures forall s, q: nat :: Names(m1, s, q) <==> Names(m, s, q)
  {
    InvIs(m);
    DataFrame(m, i, v);
    var page := m.phys[Pte(m, i, v).index].page;
    hide Inv, Core;
    SetDataEffect(m, f, page);
    var k := SetFrame(m, f, Data(page));
    assert m1.phys == k.phys;
    forall j: nat, d: nat ensures Pde(m1, j, d) == Pde(k, j, d) {
    }
    forall j: nat, w: nat ensures Pte(m1, j, w) == Pte(k, j, w) {
    }
    hide Shape;
    SameEntries(m, m1);
  }

  lemma DataStays(m: Mem, m1: Mem, n: Mem, i: nat, v: nat, f: nat)
    requires Shape(m) && HasTable(m, i, v / 1024) && HasTable(m1, i, v / 1024) && USER_BASE <= v < VIRTUAL_LIMIT
    requires Pde(m1, i, v / 1024) == Pde(m, i, v / 1024) && Pte(m, i, v).index < |m.phys| == |m.refs|
    requires f < |m.phys| && (forall s :: !Names(m, s, f)) && m.phys[Pte(m, i, v).index].Data?
    requires m1.phys == m.phys[f := m.phys[Pte(m, i, v).index]]
    requires n.phys == SetPte(m1, i, v, Entry(true, true, f)).phys
    ensures KindsKept(m, n, PteSlot(i, v), f) && SameData(m, n) && n.phys[f] == m.phys[Pte(m, i, v).index]
  {
    assert Names(m, DirSlot(i, v / 1024), Pde(m, i, v / 1024).index);
    hide Pte;
  }

  // n is m with page v of process i moved from a shared frame to the fresh f.
  ghost predicate Splits(m: Mem, n: Mem, i: nat, v: nat, f: nat) {
    && KERNEL_FRAMES <= f < |m.refs| && m.refs[f] == 0 && (forall s :: !Names(m, s, f))
    && Names(m, PteSlot(i, v), Pte(m, i, v).index)
    && Pte(m, i, v).index < |m.refs| && m.refs[Pte(m, i, v).index] > 1
    && n.refs == m.refs[f := 1][Pte(m, i, v).index := m.refs[Pte(m, i, v).index] - 1]
    && n.free == m.free - 1 && n.start == m.start && n.spaces == m.spaces
    && OnePage(m, n, i, v, Entry(true, true, f)) && KindsKept(m, n, PteSlot(i, v), f)
  }

  lemma SplitInv(m: Mem, n: Mem, i: nat, v: nat, f: nat)
    requires Inv(m) && InRange(m, i, v) && v in m.spaces[i].vmap && Splits(m, n, i, v, f)
    ensures Inv(n)
  {
    hide Shape, OneOwner, NoAlias, Counted, WriteSole, Accounted, Mirror, KindsKept;
    SplitCounts(m, n, i, v, f);
    SplitAccounts(m, n, i, v, f);
    assert m.spaces[i].vmap == m.spaces[i].vmap + {v};
    MirrorAfter(m, n, i, v, Entry(true, true, f));
  }

  lemma SplitAccounts(m: Mem, n: Mem, i: nat, v: nat, f: nat)
    requires Core(m) && Splits(m, n, i, v, f)
    ensures Accounted(n) && WriteSole(n)
  {
    var p := Pte(m, i, v).index;
    ZerosAfter(m.refs, f, 1);
    ZerosAfter(m.refs[f := 1], p, m.refs[p] - 1);
    SoleExcept(m, n, i, v);
  }

  lemma SplitCounts(m: Mem, n: Mem, i: nat, v: nat, f: nat)
    requires Core(m) && Splits(m, n, i, v, f)
    ensures Shape(n) && OneOwner(n) && NoAlias(n) && Counted(n)
  {
    OnePageMoves(m, n, i, v, Entry(true, true, f), f);
    MovedShape(m, n, PteSlot(i, v), f);
    assert forall q: nat :: Names(m, PteSlot(i, v), q) <==> q == Pte(m, i, v).index;
    MovedCounted(m, n, PteSlot(i, v), f);
  }

  // Making the page writable in place: the frame has no other user.
  lemma UnshareKeeps(m: Mem, i: nat, v: nat)
    requires Inv(m) && HasTable(m, i, v / 1024) && USER_BASE <= v < VIRTUAL_LIMIT
    requires Pte(m, i, v).present && Pte(m, i, v).index < |m.refs| && m.refs[Pte(m, i, v).index] == 1
    ensures var n := SetPte(m, i, v, Pte(m, i, v).(write := true));
      Inv(n) && SameData(m, n) && OnePage(m, n, i, v, Pte(m, i, v).(write := true))
  {
    var e := Pte(m, i, v).(write := true);
    var n := SetPte(m, i, v, e);
    UnshareEffect(m, n, i, v, e);
    hide Shape, OneOwner, NoAlias, Counted, WriteSole, Accounted, SameData;
    assert Mirror(m, i) && m.spaces[i].vmap == m.spaces[i].vmap + {v};
    MirrorAfter(m, n, i, v, e);
  }

  lemma UnshareEffect(m: Mem, n: Mem, i: nat, v: nat, e: Entry)
    requires Core(m) && HasTable(m, i, v / 1024) && USER_BASE <= v < VIRTUAL_LIMIT
    requires Pte(m, i, v).present && Pte(m, i, v).index < |m.refs| && m.refs[Pte(m, i, v).index] == 1
    requires e == Pte(m, i, v).(write := true) && n == SetPte(m, i, v, e)
    ensures Core(n) && SameData(m, n) && OnePage(m, n, i, v, e)
  {
    hide *;
    CoreIs(m);
    SetPteEffect(m, i, v, e);
    SetPteKeeps(m, i, v, e);
    SetPteKinds(m, i, v, e);
    SameIndices(m, n);
    UnshareCore(m, n, i, v, e);
    UnsharePage(m, n, i, v, e);
  }

  lemma CoreIs(m: Mem)
    requires Core(m)
    ensures Shape(m) && OneOwner(m) && |m.phys| == |m.refs|
  {
  }

  // Only a table is written.
  lemma SetPteKinds(m: Mem, i: nat, v: nat, e: Entry)
    requires Shape(m) && USER_BASE <= v < VIRTUAL_LIMIT && HasTable(m, i, v / 1024)
    ensures var n := SetPte(m, i, v, e);
      SameData(m, n) && forall q :: 0 <= q < |m.phys| ==> n.phys[q].Table? == m.phys[q].Table?
  {
    assert Names(m, DirSlot(i, v / 1024), Pde(m, i, v / 1024).index);
    hide Pte;
  }

  lemma UnshareCore(m: Mem, n: Mem, i: nat, v: nat, e: Entry)
    requires Core(m) && Pte(m, i, v).present && Pte(m, i, v).index < |m.refs| && m.refs[Pte(m, i, v).index] == 1
    requires e == Pte(m, i, v).(write := true)
    requires |n.phys| == |m.phys| && n.refs == m.refs && n.free == m.free && n.start == m.start && n.spaces == m.spaces
    requires forall q :: 0 <= q < |m.phys| ==> n.phys[q].Table? == m.phys[q].Table?
    requires forall j: nat, w: nat :: Pte(n, j, w) == if j == i && w == v then e else Pte(m, j, w)
    requires forall s, p: nat :: Names(n, s, p) <==> Names(m, s, p)
    requires forall p: nat :: Refs(n, p) == Refs(m, p)
    ensures Core(n)
  {
    hide Pte, Names;
    SoleExcept(m, n, i, v);
  }

  lemma UnsharePage(m: Mem, n: Mem, i: nat, v: nat, e: Entry)
    requires n.spaces == m.spaces
    requires forall j: nat, d: nat :: Pde(n, j, d) == Pde(m, j, d)
    requires forall j: nat, w: nat :: Pte(n, j, w) == if j == i && w == v then e else Pte(m, j, w)
    ensures OnePage(m, n, i, v, e)
  {
    hide Pte, Pde;
  }

  // The write bit is not part of what an entry names.
  lemma SameIndices(m: Mem, n: Mem)
    requires forall j: nat, d: nat :: Pde(n, j, d) == Pde(m, j, d)
    requires forall j: nat, w: nat :: Pte(n, j, w).present == Pte(m, j, w).present && Pte(n, j, w).index == Pte(m, j, w).index
    ensures forall s, p: nat :: Names(n, s, p) <==> Names(m, s, p)
    ensures forall p: nat :: Refs(n, p) == Refs(m, p)
  {
    hide Pde, Pte;
    forall s, p: nat ensures Names(n, s, p) <==> Names(m, s, p) {
    }
    hide Names;
    forall p: nat ensures Refs(n, p) == Refs(m, p) {
    }
  }

  // Page v of process i afterwards holds what it held, or `junk` if it was missing.
  ghost predicate StillSees(m: Mem, n: Mem, i: nat, v: nat, junk: Page) {
    forall page: Page :: Sees(n, i, v, page) <==> if Pte(m, i, v).present then Sees(m, i, v, page) else page == junk
  }

  // One fault is enough: afterwards the access goes through, the process sees the
  // page it saw before (or, if the page was missing, whatever the fresh frame
  // held), and nobody else sees a change.  Only memory can run out.
  lemma TouchKeeps(m: Mem, i: nat, vaddr: nat, write: bool, junk: Page)
    requires Inv(m) && i in m.spaces
    ensures var r := Touch(m, i, vaddr, write, junk); var v := vaddr / PAGE_SIZE;
      && (r.Halt? && InRange(m, i, v) ==> r.why == OutOfMemory)
      && (r.Ok? ==> Inv(r.value) && Allows(r.value, i, v, write))
      && (r.Ok? ==> InRange(m, i, v) && OthersSee(m, r.value, i, v) && StillSees(m, r.value, i, v, junk))
  {
    var v := vaddr / PAGE_SIZE;
    var r := Touch(m, i, vaddr, write, junk);
    assert Mirror(m, i);
    assert r.Halt? && InRange(m, i, v) ==> r.why == OutOfMemory by {
      if Pte(m, i, v).present {
        TouchPresent(m, i, vaddr, write, junk);
      } else if InRange(m, i, v) {
        LinkPageKeeps(m, i, v, junk);
      }
    }
    if r.Ok? {
      if Pte(m, i, v).present {
        TouchPresent(m, i, vaddr, write, junk);
      } else {
        LinkPageKeeps(m, i, v, junk);
      }
      Settled(m, r.value, i, v, write, junk);
    }
  }

  // The translation of page v may have changed, but it still shows the same contents.
  ghost predicate Resolved(m: Mem, n: Mem, i: nat, v: nat, write: bool) {
    && Inv(n) && SameData(m, n) && n.spaces == m.spaces
    && (forall j: nat, w: nat :: !(j == i && w == v) ==> Pte(n, j, w) == Pte(m, j, w))
    && Pte(m, i, v).present && Pte(m, i, v).index < |m.phys|
    && Pte(n, i, v).present && (write ==> Pte(n, i, v).write)
    && Pte(n, i, v).index < |n.phys| && n.phys[Pte(n, i, v).index] == m.phys[Pte(m, i, v).index]
  }

  lemma Settled(m: Mem, n: Mem, i: nat, v: nat, write: bool, junk: Page)
    requires Inv(m) && Inv(n) && i in m.spaces && n.spaces.Keys == m.spaces.Keys && SameData(m, n)
    requires forall j :: j in m.spaces ==> n.spaces[j].brk == m.spaces[j].brk
    requires forall j: nat, w: nat :: !(j == i && w == v) ==> Pte(n, j, w) == Pte(m, j, w)
    requires Pte(n, i, v).present && Pte(n, i, v).index < |n.phys| && (write ==> Pte(n, i, v).write)
    requires Pte(m, i, v).present ==>
               Pte(m, i, v).index < |m.phys| && n.phys[Pte(n, i, v).index] == m.phys[Pte(m, i, v).index]
    requires !Pte(m, i, v).present ==> n.phys[Pte(n, i, v).index] == Data(junk)
    ensures Allows(n, i, v, write) && InRange(m, i, v)
    ensures OthersSee(m, n, i, v) && StillSees(m, n, i, v, junk)
  {
    assert Mirror(n, i);
    assert Names(n, PteSlot(i, v), Pte(n, i, v).index);
    DataSeen(m, n, i, v);
  }

  // The fault on a present page.
  lemma TouchPresent(m: Mem, i: nat, vaddr: nat, write: bool, junk: Page)
    requires Inv(m) && i in m.spaces && Pte(m, i, vaddr / PAGE_SIZE).present
    ensures var v := vaddr / PAGE_SIZE; var r := Touch(m, i, vaddr, write, junk);
      (r.Halt? ==> r.why == OutOfMemory) && (r.Ok? ==> Resolved(m, r.value, i, v, write))
  {
    hide Inv, Pte, Names, Mirror, SetPte, LinkPage;
    var v := vaddr / PAGE_SIZE;
    PresentPage(m, i, v);
    if write && !Pte(m, i, v).write {
      WriteFault(m, i, v);
      hide HasTable, Resolved;
      assert Touch(m, i, vaddr, write, junk) == PageFault(m, i, vaddr, true, true, junk);
    } else {
      hide PageFault;
    }
  }

  lemma PresentPage(m: Mem, i: nat, v: nat)
    requires Inv(m) && i in m.spaces && Pte(m, i, v).present
    ensures USER_BASE <= v < STACK_TOP && HasTable(m, i, v / 1024) && InRange(m, i, v)
    ensures Pte(m, i, v).index < |m.phys| == |m.refs|
    ensures Names(m, PteSlot(i, v), Pte(m, i, v).index) && SameData(m, m)
  {
    assert Mirror(m, i);
    assert Names(m, PteSlot(i, v), Pte(m, i, v).index);
    assert Names(m, DirSlot(i, v / 1024), Pde(m, i, v / 1024).index);
  }

  // The two ways out of a write fault: sole user, or copy.
  lemma WriteFault(m: Mem, i: nat, v: nat)
    requires Inv(m) && HasTable(m, i, v / 1024) && USER_BASE <= v < STACK_TOP
    requires Pte(m, i, v).present && Pte(m, i, v).index < |m.refs| == |m.phys|
    ensures var e := Pte(m, i, v);
      && m.refs[e.index] > 0
      && (m.refs[e.index] == 1 ==> Resolved(m, SetPte(m, i, v, e.(write := true)), i, v, true))
      && (m.refs[e.index] > 1 && CopyPage(m, e.index).Ok? ==>
            var (m1, f) := CopyPage(m, e.index).value;
            && m1.refs[e.index] > 0 && HasTable(m1, i, v / 1024)
            && Resolved(m, SetPte(m1.(refs := m1.refs[e.index := m1.refs[e.index] - 1]), i, v, Entry(true, true, f)), i, v, true))
  {
    assert v < VIRTUAL_LIMIT;
    hide *;
    var e := Pte(m, i, v);
    InvIs(m);
    DataFrame(m, i, v);
    NamedCounts(m, PteSlot(i, v), e.index);
    if m.refs[e.index] == 1 {
      var n := SetPte(m, i, v, e.(write := true));
      UnshareKeeps(m, i, v);
      SetPteKeeps(m, i, v, e.(write := true));
      FrameStays(m, n, i, v);
      ResolvedBy(m, n, i, v, e.(write := true));
    } else if CopyPage(m, e.index).Ok? {
      SplitKeeps(m, i, v);
      CopyFresh(m, i, v);
      var (m1, f) := CopyPage(m, e.index).value;
      var m2 := m1.(refs := m1.refs[e.index := m1.refs[e.index] - 1]);
      SetPteKeeps(m2, i, v, Entry(true, true, f));
      ResolvedBy(m, SetPte(m2, i, v, Entry(true, true, f)), i, v, Entry(true, true, f));
    }
  }

  lemma FrameStays(m: Mem, n: Mem, i: nat, v: nat)
    requires SameData(m, n) && Names(m, PteSlot(i, v), Pte(m, i, v).index) && Pte(m, i, v).index < |m.phys|
    ensures |n.phys| == |m.phys| && n.phys[Pte(m, i, v).index] == m.phys[Pte(m, i, v).index]
  {
    hide Pte, Names;
  }

  lemma ResolvedBy(m: Mem, n: Mem, i: nat, v: nat, e: Entry)
    requires Inv(n) && SameData(m, n) && OnePage(m, n, i, v, e) && n.spaces == m.spaces && e.present && e.write
    requires Pte(m, i, v).present && Pte(m, i, v).index < |m.phys|
    requires e.index < |n.phys| && n.phys[e.index] == m.phys[Pte(m, i, v).index]
    ensures Resolved(m, n, i, v, true)
  {
    hide Inv, SameData, Pte;
  }
}
