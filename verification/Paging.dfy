/**
 Physical frames, page tables and address spaces of src/kernel/memory.cpp as
 values, with one function per operation of the source.

 A virtual page is its number `v` (virtual address divided by 4096): its page
 directory slot is `v / 1024` and its page table slot `v % 1024`, as in section
 4.3 of volume 3A of the Intel SDM.  Page tables are not stored beside the
 directories: they live in physical frames, so that a table, a data page and the
 tables of other processes could alias; that they never do is a theorem.
 */
module Paging {
  import opened Outcome

  const PAGE_SIZE := 4096
  const FIRST_USER_PDE := 4           // directory slots 0..3 map the kernel
  const SELF_PDE := 1023              // the directory itself
  const KERNEL_FRAMES := 4096         // frames below 16M, all marked used at boot
  const USER_BASE := 4096             // first user page, KERNEL_MEMORY_SIZE / PAGE_SIZE
  const STACK_BOTTOM := 32256         // USER_STACK_BOTTOM / PAGE_SIZE
  const STACK_TOP := 32768            // USER_STACK_TOP / PAGE_SIZE
  const VIRTUAL_LIMIT := 1047552      // first page of the directory's own slot
  const VMAP_LIMIT := 36864           // USER_BASE and the bits of one page: the end of vmap
  const NR_TASKS := 64

  type uint8 = x: int | 0 <= x < 256
  type Page = p: seq<uint8> | |p| == PAGE_SIZE witness seq(PAGE_SIZE, _ => 0)

  datatype Entry = Entry(present: bool, write: bool, index: nat)

  const ABSENT := Entry(false, false, 0)

  type Entries = e: seq<Entry> | |e| == 1024 witness seq(1024, _ => ABSENT)

  // A table page after memset: no entry is present.
  function EmptyTable(): (e: Entries)
    ensures forall k :: 0 <= k < 1024 ==> e[k] == ABSENT
  {
    seq(1024, _ => ABSENT)
  }

  // What a physical frame currently holds.
  datatype Frame = Data(page: Page) | Table(ptes: Entries)

  // One process: its page directory, the set of pages marked in `vmap`, and `brk`
  // (a page number; sysBrk only accepts aligned addresses).
  datatype Space = Space(dir: Entries, vmap: set<nat>, brk: nat)

  // `refs` is memoryMap, `free` is freePages, `start` is startPage.
  datatype Mem = Mem(start: nat, refs: seq<uint8>, free: int, phys: seq<Frame>, spaces: map<nat, Space>)

  // ---------- boot ----------

  // memoryMap after memoryMapInit and mappingInit: the first 16M are in use.  `free`
  // was lowered for the pages of memoryMap only, so it exceeds the free frames.
  function BootMap(total: nat): (r: seq<uint8>)
    ensures |r| == total && forall p :: 0 <= p < total ==> r[p] == if p < KERNEL_FRAMES then 1 else 0
  {
    seq(total, p => if p < KERNEL_FRAMES then 1 else 0)
  }

  function BlankPage(): Page {
    seq(PAGE_SIZE, _ => 0)
  }

  // `mapPages` is memoryMapPages; the first 256 frames lie below MEMORY_BASE.
  function Boot(total: nat, mapPages: nat): Mem {
    Mem(256 + mapPages, BootMap(total), total - 256 - mapPages, seq(total, _ => Data(BlankPage())), map[])
  }

  // The kernel's own directory: four tables, and itself in the last slot.
  function KernelDir(): (e: Entries)
    ensures forall d :: FIRST_USER_PDE <= d < SELF_PDE ==> e[d] == ABSENT
  {
    seq(1024, (d: nat) => if d < FIRST_USER_PDE then Entry(true, true, 2 + d)
                   else if d == SELF_PDE then Entry(true, true, 1) else ABSENT)
  }

  // taskToUserMode: copyPde of the kernel's directory, which has no user tables, an
  // empty vmap, and brk at KERNEL_MEMORY_SIZE.
  function NewSpace(m: Mem, i: nat, self: nat): Mem {
    m.(spaces := m.spaces[i := Space(ChildDir(KernelDir(), self), {}, USER_BASE)])
  }

  // ---------- walking the tables ----------

  function Pde(m: Mem, i: nat, d: nat): Entry {
    if i in m.spaces && d < 1024 then m.spaces[i].dir[d] else ABSENT
  }

  function Pte(m: Mem, i: nat, v: nat): Entry {
    var pde := Pde(m, i, v / 1024);
    if USER_BASE <= v < VIRTUAL_LIMIT && pde.present && pde.index < |m.phys| && m.phys[pde.index].Table?
    then m.phys[pde.index].ptes[v % 1024]
    else ABSENT
  }

  // The page directory and page table slots that can hold a reference to a frame.
  datatype Slot = DirSlot(i: nat, d: nat) | PteSlot(i: nat, v: nat)

  predicate Names(m: Mem, s: Slot, p: nat) {
    match s
    case DirSlot(i, d) => FIRST_USER_PDE <= d < SELF_PDE && Pde(m, i, d).present && Pde(m, i, d).index == p
    case PteSlot(i, v) => Pte(m, i, v).present && Pte(m, i, v).index == p
  }

  // What getPte, linkPage, copyPde and freePde rely on before they index memory.
  ghost predicate Shape(m: Mem) {
    && |m.phys| == |m.refs|
    && m.start <= KERNEL_FRAMES <= |m.refs|
    && (forall s, p: nat :: Names(m, s, p) ==> KERNEL_FRAMES <= p < |m.refs|)
    && (forall i: nat, d: nat, p: nat :: Names(m, DirSlot(i, d), p) ==> m.phys[p].Table?)
    && (forall i: nat, v: nat, p: nat :: Names(m, PteSlot(i, v), p) ==> m.phys[p].Data?)
  }

  // ---------- getPage and putPage ----------

  predicate IsFirstFree(refs: seq<uint8>, start: nat, f: nat) {
    start <= f < |refs| && refs[f] == 0 && forall k :: start <= k < f ==> refs[k] != 0
  }

  function FirstFree(refs: seq<uint8>, start: nat): (f: nat)
    ensures f < |refs| ==> IsFirstFree(refs, start, f)
    ensures f >= |refs| ==> forall k :: start <= k < |refs| ==> refs[k] != 0
    decreases |refs| - start
  {
    if start >= |refs| || refs[start] == 0 then start else FirstFree(refs, start + 1)
  }

  // The frame is marked used; what it holds is left alone.
  function GetPage(m: Mem): Result<(Mem, nat)> {
    var f := FirstFree(m.refs, m.start);
    if f >= |m.refs| then Halt(OutOfMemory)
    else Ok((m.(refs := m.refs[f := 1], free := m.free - 1), f))
  }

  function PutPage(m: Mem, p: nat): Result<Mem> {
    if !(m.start <= p < |m.refs|) || m.refs[p] < 1 then Halt(AssertFailed)
    else
      var refs := m.refs[p := m.refs[p] - 1];
      var free := if refs[p] == 0 then m.free + 1 else m.free;
      if !(0 < free < |refs|) then Halt(AssertFailed) else Ok(m.(refs := refs, free := free))
  }

  // ---------- single page operations ----------

  // The slot d of process i refers to a frame that holds a page table.
  predicate HasTable(m: Mem, i: nat, d: nat) {
    && i in m.spaces && d < 1024
    && Pde(m, i, d).present && Pde(m, i, d).index < |m.phys| && m.phys[Pde(m, i, d).index].Table?
  }

  function TableOf(m: Mem, i: nat, d: nat): Entries
    requires HasTable(m, i, d)
  {
    m.phys[Pde(m, i, d).index].ptes
  }

  function SetFrame(m: Mem, f: nat, frame: Frame): Mem
    requires f < |m.phys|
  {
    m.(phys := m.phys[f := frame])
  }

  function SetPde(m: Mem, i: nat, d: nat, e: Entry): Mem
    requires i in m.spaces && d < 1024
  {
    m.(spaces := m.spaces[i := m.spaces[i].(dir := m.spaces[i].dir[d := e])])
  }

  function SetPte(m: Mem, i: nat, v: nat, e: Entry): Mem
    requires HasTable(m, i, v / 1024)
  {
    SetFrame(m, Pde(m, i, v / 1024).index, Table(TableOf(m, i, v / 1024)[v % 1024 := e]))
  }

  function SetVmap(m: Mem, i: nat, vmap: set<nat>): Mem
    requires i in m.spaces
  {
    m.(spaces := m.spaces[i := m.spaces[i].(vmap := vmap)])
  }

  // getPte(vaddr, true): the table of page v, created empty if missing.
  function EnsureTable(m: Mem, i: nat, v: nat): Result<Mem>
    requires i in m.spaces && USER_BASE <= v < VIRTUAL_LIMIT && |m.phys| == |m.refs|
  {
    if Pde(m, i, v / 1024).present then Ok(m)
    else
      var (m1, f) :- GetPage(m);
      Ok(SetFrame(SetPde(m1, i, v / 1024, Entry(true, true, f)), f, Table(EmptyTable())))
  }

  // linkPage.  `junk` is what the fresh frame happens to hold: it is not cleared.  Past
  // the end of vmap bitmapTest stops the kernel, after a table has been created.
  function LinkPage(m: Mem, i: nat, v: nat, junk: Page): Result<Mem>
    requires i in m.spaces && USER_BASE <= v < VIRTUAL_LIMIT && |m.phys| == |m.refs|
  {
    var m1 :- EnsureTable(m, i, v);
    if !HasTable(m1, i, v / 1024) then Halt(Undefined)
    else if v >= VMAP_LIMIT then Halt(AssertFailed)
    else if Pte(m1, i, v).present then
      if v in m1.spaces[i].vmap then Ok(m1) else Halt(AssertFailed)
    else if v in m1.spaces[i].vmap then Halt(AssertFailed)
    else
      var m2 := SetVmap(m1, i, m1.spaces[i].vmap + {v});
      var (m3, f) :- GetPage(m2);
      Ok(SetFrame(SetPte(m3, i, v, Entry(true, true, f)), f, Data(junk)))
  }

  // unlinkPage.  Also here a missing table is created first.
  function UnlinkPage(m: Mem, i: nat, v: nat): Result<Mem>
    requires i in m.spaces && USER_BASE <= v < VIRTUAL_LIMIT && |m.phys| == |m.refs|
  {
    var m1 :- EnsureTable(m, i, v);
    if !HasTable(m1, i, v / 1024) then Halt(Undefined)
    else if v >= VMAP_LIMIT then Halt(AssertFailed)
    else
      var e := Pte(m1, i, v);
      if !e.present then
        if v in m1.spaces[i].vmap then Halt(AssertFailed) else Ok(m1)
      else if v !in m1.spaces[i].vmap then Halt(AssertFailed)
      else
        var m2 := SetPte(m1, i, v, e.(present := false));
        PutPage(SetVmap(m2, i, m2.spaces[i].vmap - {v}), e.index)
  }

  // A copy of frame p in a fresh frame: copyPage.
  function CopyPage(m: Mem, p: nat): Result<(Mem, nat)>
    requires |m.phys| == |m.refs| && p < |m.phys|
  {
    var (m1, f) :- GetPage(m);
    Ok((SetFrame(m1, f, m1.phys[p]), f))
  }

  // ---------- fork: copyPde ----------

  function ReadOnly(e: Entry): Entry {
    if e.present then e.(write := false) else e
  }

  function AllReadOnly(ptes: Entries): (ro: Entries)
    ensures forall k :: 0 <= k < 1024 ==> ro[k] == ReadOnly(ptes[k])
  {
    seq(1024, k requires 0 <= k < 1024 => ReadOnly(ptes[k]))
  }

  // memoryMap after the inner loop of copyPde has passed entries 0..t of one
  // table.  The counters are bytes: an increment wraps at 256.
  function Share(refs: seq<uint8>, ptes: Entries, t: nat): (r: Result<seq<uint8>>)
    requires t <= 1024
    ensures r.Ok? ==> |r.value| == |refs|
  {
    if t == 0 then Ok(refs)
    else
      var r :- Share(refs, ptes, t - 1);
      var e := ptes[t - 1];
      if !e.present then Ok(r)
      else if e.index >= |r| then Halt(Undefined)
      else
        var n := (r[e.index] as int + 1) % 256;
        if r[e.index] == 0 || n >= 255 then Halt(AssertFailed) else Ok(r[e.index := n])
  }

  // One round of the outer loop of copyPde: the table in slot d of process i is
  // made read-only, its pages shared, and a copy of it entered for process c.
  function CopyTable(m: Mem, i: nat, c: nat, d: nat): Result<Mem>
    requires i in m.spaces && c in m.spaces && d < 1024 && |m.phys| == |m.refs|
  {
    if !HasTable(m, i, d) then Halt(Undefined)
    else
      var t := Pde(m, i, d).index;
      var refs :- Share(m.refs, TableOf(m, i, d), 1024);
      var m1 := SetFrame(m.(refs := refs), t, Table(AllReadOnly(TableOf(m, i, d))));
      var (m2, f) :- CopyPage(m1, t);
      Ok(SetPde(m2, c, d, Pde(m, i, d).(index := f)))
  }

  // The outer loop of copyPde, slots FIRST_USER_PDE..d.
  function CopyTables(m: Mem, i: nat, c: nat, d: nat): (r: Result<Mem>)
    requires i in m.spaces && c in m.spaces && d <= SELF_PDE && |m.phys| == |m.refs|
    ensures r.Ok? ==> r.value.spaces.Keys == m.spaces.Keys && |r.value.phys| == |r.value.refs| == |m.refs|
  {
    if d <= FIRST_USER_PDE then Ok(m)
    else
      var m1 :- CopyTables(m, i, c, d - 1);
      if Pde(m1, i, d - 1).present then CopyTable(m1, i, c, d - 1) else Ok(m1)
  }

  // The directory copyPde starts from: its last slot maps the directory itself (page
  // `self`), and a user slot that was in use has no table until it is copied.
  function ChildDir(dir: Entries, self: nat): (r: Entries)
    ensures forall d :: 0 <= d < 1024 ==> r[d] == ChildEntry(dir[d], self, d)
  {
    seq(1024, d requires 0 <= d < 1024 => ChildEntry(dir[d], self, d))
  }

  function ChildEntry(e: Entry, self: nat, d: int): Entry {
    if d == SELF_PDE then Entry(true, true, self)
    else if d >= FIRST_USER_PDE && e.present then ABSENT
    else e
  }

  // The address space part of taskFork: vmap and brk are copied, the directory
  // through copyPde.  `self` is the kernel page of the new directory.
  function Fork(m: Mem, i: nat, c: nat, self: nat): Result<Mem>
    requires i in m.spaces && c !in m.spaces && |m.phys| == |m.refs|
  {
    CopyTables(m.(spaces := m.spaces[c := m.spaces[i].(dir := ChildDir(m.spaces[i].dir, self))]), i, c, SELF_PDE)
  }

  // ---------- exit: freePde ----------

  // The inner loop of freePde over entries 0..t of one table.
  function DropPages(m: Mem, ptes: Entries, t: nat): (r: Result<Mem>)
    requires t <= 1024
    ensures r.Ok? ==> r.value.spaces == m.spaces && r.value.phys == m.phys && |r.value.refs| == |m.refs|
    ensures r.Ok? ==> r.value.start == m.start
  {
    if t == 0 then Ok(m)
    else
      var m1 :- DropPages(m, ptes, t - 1);
      if ptes[t - 1].present then PutPage(m1, ptes[t - 1].index) else Ok(m1)
  }

  // One round of the outer loop of freePde.  The slot is cleared here to say that
  // it no longer counts; the source leaves it in a directory nobody uses again.
  function FreeTable(m: Mem, i: nat, d: nat): Result<Mem>
    requires i in m.spaces && d < 1024
  {
    if !HasTable(m, i, d) then Halt(Undefined)
    else
      var m1 :- DropPages(m, TableOf(m, i, d), 1024);
      var m2 :- PutPage(m1, Pde(m, i, d).index);
      Ok(SetPde(m2, i, d, ABSENT))
  }

  function FreeTables(m: Mem, i: nat, d: nat): (r: Result<Mem>)
    requires i in m.spaces && d <= SELF_PDE
    ensures r.Ok? ==> r.value.spaces.Keys == m.spaces.Keys
  {
    if d <= FIRST_USER_PDE then Ok(m)
    else
      var m1 :- FreeTables(m, i, d - 1);
      if Pde(m1, i, d - 1).present then FreeTable(m1, i, d - 1) else Ok(m1)
  }

  function Exit(m: Mem, i: nat): Result<Mem>
    requires i in m.spaces
  {
    var m1 :- FreeTables(m, i, SELF_PDE);
    Ok(m1.(spaces := m1.spaces - {i}))
  }

  // ---------- sysBrk ----------

  function UnlinkRange(m: Mem, i: nat, lo: nat, hi: nat): (r: Result<Mem>)
    requires i in m.spaces && USER_BASE <= lo <= hi <= VIRTUAL_LIMIT && |m.phys| == |m.refs|
    ensures r.Ok? ==> r.value.spaces.Keys == m.spaces.Keys && |r.value.phys| == |r.value.refs|
    decreases hi
  {
    if lo == hi then Ok(m)
    else
      var m1 :- UnlinkRange(m, i, lo, hi - 1);
      UnlinkPage(m1, i, hi - 1)
  }

  // sysBrk with a byte address; the number is the system call's result.
  function Brk(m: Mem, i: nat, addr: nat): Result<(Mem, int)>
    requires i in m.spaces && |m.phys| == |m.refs|
  {
    var page := addr / PAGE_SIZE;
    var old_brk := m.spaces[i].brk;
    if addr % PAGE_SIZE != 0 || !(USER_BASE <= page < STACK_BOTTOM) then Halt(AssertFailed)
    else if old_brk > page then
      if old_brk > VIRTUAL_LIMIT then Halt(Undefined)
      else
        var m1 :- UnlinkRange(m, i, page, old_brk);
        Ok((SetBrk(m1, i, page), 0))
    else if page - old_brk > m.free then Ok((m, -1))
    else Ok((SetBrk(m, i, page), 0))
  }

  function SetBrk(m: Mem, i: nat, brk: nat): Mem
    requires i in m.spaces
  {
    m.(spaces := m.spaces[i := m.spaces[i].(brk := brk)])
  }

  // ---------- pageFault and user accesses ----------

  // pageFault; `present` and `write` are the two bits of the error code it reads.
  function PageFault(m: Mem, i: nat, vaddr: nat, present: bool, write: bool, junk: Page): Result<Mem>
    requires i in m.spaces && |m.phys| == |m.refs|
  {
    var v := vaddr / PAGE_SIZE;
    if !(USER_BASE <= v < STACK_TOP) then Halt(AssertFailed)
    else if present then
      var e := Pte(m, i, v);
      if !write || !Pde(m, i, v / 1024).present || !e.present then Halt(AssertFailed)
      else if !HasTable(m, i, v / 1024) || e.index >= |m.refs| then Halt(Undefined)
      else if m.refs[e.index] == 0 then Halt(AssertFailed)
      else if m.refs[e.index] == 1 then Ok(SetPte(m, i, v, e.(write := true)))
      else
        var (m1, f) :- CopyPage(m, e.index);
        if m1.refs[e.index] == 0 || !HasTable(m1, i, v / 1024) then Halt(Undefined)
        else Ok(SetPte(m1.(refs := m1.refs[e.index := m1.refs[e.index] - 1]), i, v, Entry(true, true, f)))
    else if v < m.spaces[i].brk || v >= STACK_BOTTOM then LinkPage(m, i, v, junk)
    else Halt(SegFault)
  }

  // What the processor does before an access: if the entry does not allow it, the
  // fault handler runs once and the access is tried again.
  function Touch(m: Mem, i: nat, vaddr: nat, write: bool, junk: Page): Result<Mem>
    requires i in m.spaces && |m.phys| == |m.refs|
  {
    var e := Pte(m, i, vaddr / PAGE_SIZE);
    if e.present && (write ==> e.write) then Ok(m) else PageFault(m, i, vaddr, e.present, write, junk)
  }

  // The access itself: the entry has to allow it, and it has to lead to a data page.
  predicate Allows(m: Mem, i: nat, v: nat, write: bool) {
    var e := Pte(m, i, v);
    e.present && (write ==> e.write) && e.index < |m.phys| && m.phys[e.index].Data?
  }

  function Load(m: Mem, i: nat, vaddr: nat, junk: Page): Result<(Mem, uint8)>
    requires i in m.spaces && |m.phys| == |m.refs|
  {
    var v := vaddr / PAGE_SIZE;
    var m1 :- Touch(m, i, vaddr, false, junk);
    if !Allows(m1, i, v, false) then Halt(Undefined)
    else Ok((m1, m1.phys[Pte(m1, i, v).index].page[vaddr % PAGE_SIZE]))
  }

  function Store(m: Mem, i: nat, vaddr: nat, b: uint8, junk: Page): Result<Mem>
    requires i in m.spaces && |m.phys| == |m.refs|
  {
    var v := vaddr / PAGE_SIZE;
    var m1 :- Touch(m, i, vaddr, true, junk);
    if !Allows(m1, i, v, true) then Halt(Undefined)
    else
      var f := Pte(m1, i, v).index;
      Ok(SetFrame(m1, f, Data(m1.phys[f].page[vaddr % PAGE_SIZE := b])))
  }
}
