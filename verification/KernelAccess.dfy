/**
 Stores that the kernel makes into user memory, as waitpid does for its status
 (src/kernel/task.cpp:424).  CR0.WP is never set, so in supervisor mode the processor
 ignores that an entry is read-only: copy-on-write does not see the store.
 */
module KernelAccess {
  import opened Outcome
  import opened Paging
  import opened PagingInvariant

  // Only a missing page faults.
  function KernelStore(m: Mem, i: nat, vaddr: nat, b: uint8, junk: Page): Result<Mem>
    requires i in m.spaces && |m.phys| == |m.refs|
  {
    var v := vaddr / PAGE_SIZE;
    var m1 :- Touch(m, i, vaddr, false, junk);
    if !Allows(m1, i, v, false) then Halt(Undefined)
    else
      var f := Pte(m1, i, v).index;
      Ok(SetFrame(m1, f, Data(m1.phys[f].page[vaddr % PAGE_SIZE := b])))
  }

  // The store changes a byte of a frame that another process uses too.
  predicate Leaks(m: Mem, i: nat, vaddr: nat, b: uint8) {
    var e := Pte(m, i, vaddr / PAGE_SIZE);
    && e.present && e.index < |m.refs| && m.refs[e.index] > 1
    && e.index < |m.phys| && m.phys[e.index].Data? && m.phys[e.index].page[vaddr % PAGE_SIZE] != b
  }

  // The store is in the process's own memory, and all counts stay right; but it is
  // somebody else's business exactly if it leaks.
  lemma SeenExactlyWhenShared(m: Mem, i: nat, vaddr: nat, b: uint8, junk: Page)
    requires Inv(m) && i in m.spaces && |m.phys| == |m.refs| && KernelStore(m, i, vaddr, b, junk).Ok?
    ensures var n, v := KernelStore(m, i, vaddr, b, junk).value, vaddr / PAGE_SIZE;
      && Inv(n)
      && (exists page: Page :: page[vaddr % PAGE_SIZE] == b && Sees(n, i, v, page))
      && (OthersSee(m, n, i, v) <==> !Leaks(m, i, vaddr, b))
  {
    var v := vaddr / PAGE_SIZE;
    var m1 := Touch(m, i, vaddr, false, junk).value;
    TouchKeeps(m, i, vaddr, false, junk);
    TouchedShares(m, i, vaddr, b, junk);
    var page := m1.phys[Pte(m1, i, v).index].page;
    var n := KernelStore(m, i, vaddr, b, junk).value;
    hide Inv, Touch, OthersSee, Leaks, StillSees;
    DataWritten(m1, n, i, v, page[vaddr % PAGE_SIZE := b]);
    assert Sees(n, i, v, page[vaddr % PAGE_SIZE := b]);
    if Leaks(m1, i, vaddr, b) {
      SharerSees(m1, n, i, v, page, page[vaddr % PAGE_SIZE := b]);
    } else {
      Unseen(m1, n, i, vaddr, b);
    }
    hide Sees, KernelStore, Pte;
    SeeOn(m, m1, n, i, v);
  }

  // A page that was missing is not shared afterwards.
  lemma TouchedShares(m: Mem, i: nat, vaddr: nat, b: uint8, junk: Page)
    requires Inv(m) && i in m.spaces && |m.phys| == |m.refs| && Touch(m, i, vaddr, false, junk).Ok?
    ensures Leaks(Touch(m, i, vaddr, false, junk).value, i, vaddr, b) <==> Leaks(m, i, vaddr, b)
  {
    var v := vaddr / PAGE_SIZE;
    if !Pte(m, i, v).present {
      TouchKeeps(m, i, vaddr, false, junk);
      LinkPageKeeps(m, i, v, junk);
      hide LinkPage;
    }
  }

  // Some other process maps the frame, and the byte it sees has changed.
  lemma SharerSees(m: Mem, n: Mem, i: nat, v: nat, page: Page, page': Page)
    requires Inv(m) && Allows(m, i, v, false) && m.refs[Pte(m, i, v).index] > 1
    requires m.phys[Pte(m, i, v).index] == Data(page) && page' != page && n.phys == m.phys[Pte(m, i, v).index := Data(page')]
    requires forall j: nat, w: nat :: Pte(n, j, w) == Pte(m, j, w)
    ensures !OthersSee(m, n, i, v)
  {
    var f := Pte(m, i, v).index;
    var s := AnotherSlot(m, PteSlot(i, v), f);
    assert Names(m, s, f) && s.PteSlot?;
    assert Sees(m, s.i, s.v, page) && !Sees(n, s.i, s.v, page);
  }

  lemma AnotherSlot(m: Mem, s: Slot, p: nat) returns (t: Slot)
    requires Core(m) && Names(m, s, p) && p < |m.refs| && m.refs[p] > 1
    ensures Names(m, t, p) && t != s
  {
    NamedCounts(m, s, p);
    var all := Refs(m, p);
    assert s in all;
    var others := all - {s};
    assert |others| == |all| - 1 > 0;
    t :| t in others;
  }

  // Without a leak nobody else sees a difference.
  lemma Unseen(m: Mem, n: Mem, i: nat, vaddr: nat, b: uint8)
    requires Inv(m) && i in m.spaces && Allows(m, i, vaddr / PAGE_SIZE, false) && !Leaks(m, i, vaddr, b)
    requires var f := Pte(m, i, vaddr / PAGE_SIZE).index; n == SetFrame(m, f, Data(m.phys[f].page[vaddr % PAGE_SIZE := b]))
    requires forall j: nat, w: nat :: Pte(n, j, w) == Pte(m, j, w)
    ensures OthersSee(m, n, i, vaddr / PAGE_SIZE)
  {
    var v := vaddr / PAGE_SIZE;
    var f := Pte(m, i, v).index;
    NamedCounts(m, PteSlot(i, v), f);
    if m.refs[f] > 1 {
      assert m.phys[f].page[vaddr % PAGE_SIZE := b] == m.phys[f].page;
      assert n.phys == m.phys;
    }
    forall j: nat, w: nat, p: Page | !(j == i && w == v)
      ensures Sees(n, j, w, p) <==> Sees(m, j, w, p)
    {
      assert Pte(m, j, w).present && Pte(m, j, w).index == f ==> Names(m, PteSlot(j, w), f);
    }
  }

  lemma SeeOn(m: Mem, m1: Mem, n: Mem, i: nat, v: nat)
    requires OthersSee(m, m1, i, v) && n.spaces == m1.spaces
    ensures OthersSee(m, n, i, v) <==> OthersSee(m1, n, i, v)
  {
    hide Sees;
  }
}
