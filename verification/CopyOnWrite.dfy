/**
 Copy-on-write is invisible.  The reference machine below has no frames, no
 tables and no sharing: a process is a map from pages to contents, and fork copies
 the map.  Every run of the kernel's machine is, observation by observation, a run
 of the reference machine.
 */
module CopyOnWrite {
  import opened Outcome
  import opened Paging
  import opened PagingInvariant
  import opened ForkExit

  // What processes can do to memory.  `junk` is what a frame holds that has never
  // been written by its owner; `child` and `self` are the task slot and the
  // directory page of a new process.
  datatype Command =
    | DoStart(i: nat, self: nat)
    | DoLoad(i: nat, vaddr: nat, junk: Page)
    | DoStore(i: nat, vaddr: nat, b: uint8, junk: Page)
    | DoBrk(i: nat, addr: nat)
    | DoFork(i: nat, child: nat, self: nat)
    | DoExit(i: nat)

  datatype Observation = Byte(b: uint8) | Code(c: int) | Done

  function Step(m: Mem, cmd: Command): Result<(Mem, Observation)>
    requires |m.phys| == |m.refs|
  {
    if cmd.DoStart? then
      if cmd.i in m.spaces || |m.spaces| >= NR_TASKS then Halt(TableFull)
      else Ok((NewSpace(m, cmd.i, cmd.self), Done))
    else if cmd.i !in m.spaces then Halt(Undefined)
    else
      match cmd
      case DoLoad(i, vaddr, junk) => var r :- Load(m, i, vaddr, junk); Ok((r.0, Byte(r.1)))
      case DoStore(i, vaddr, b, junk) => var n :- Store(m, i, vaddr, b, junk); Ok((n, Done))
      case DoBrk(i, addr) => var r :- Brk(m, i, addr); Ok((r.0, Code(r.1)))
      case DoFork(i, c, self) =>
        if c in m.spaces || |m.spaces| >= NR_TASKS then Halt(TableFull)
        else var n :- Fork(m, i, c, self); Ok((n, Done))
      case DoExit(i) => var n :- Exit(m, i); Ok((n, Done))
  }

  // ---------- the reference machine ----------

  datatype EagerSpace = EagerSpace(pages: map<nat, Page>, brk: nat)

  type Eager = map<nat, EagerSpace>

  // The page an access finds; an untouched page inside the limits appears as junk.
  function Fetch(s: EagerSpace, v: nat, junk: Page): Result<map<nat, Page>> {
    if v in s.pages then Ok(s.pages)
    else if USER_BASE <= v && (v < s.brk || STACK_BOTTOM <= v < STACK_TOP) then Ok(s.pages[v := junk])
    else Halt(SegFault)
  }

  // The state after `cmd` has been observed to answer `o`; Halt if it cannot.
  function EagerStep(e: Eager, cmd: Command, o: Observation): Result<Eager> {
    if cmd.DoStart? then
      if cmd.i !in e && o == Done then Ok(e[cmd.i := EagerSpace(map[], USER_BASE)]) else Halt(TableFull)
    else if cmd.i !in e then Halt(Undefined)
    else
      var s := e[cmd.i];
      match cmd
      case DoLoad(i, vaddr, junk) =>
        var pages :- Fetch(s, vaddr / PAGE_SIZE, junk);
        if vaddr / PAGE_SIZE in pages && o == Byte(pages[vaddr / PAGE_SIZE][vaddr % PAGE_SIZE])
        then Ok(e[i := s.(pages := pages)]) else Halt(Undefined)
      case DoStore(i, vaddr, b, junk) =>
        var v := vaddr / PAGE_SIZE;
        var pages :- Fetch(s, v, junk);
        if v in pages && o == Done
        then Ok(e[i := s.(pages := pages[v := pages[v][vaddr % PAGE_SIZE := b]])]) else Halt(Undefined)
      case DoBrk(i, addr) =>
        var page := addr / PAGE_SIZE;
        if o == Code(0) then
          Ok(e[i := EagerSpace(map w | w in s.pages && !(page <= w < s.brk) :: s.pages[w], page)])
        else if o == Code(-1) && page > s.brk then Ok(e)
        else Halt(Undefined)
      case DoFork(i, c, self) =>
        if c !in e && o == Done then Ok(e[c := s]) else Halt(TableFull)
      case DoExit(i) =>
        if o == Done then Ok(e - {i}) else Halt(Undefined)
  }

  // ---------- what the kernel's machine shows ----------

  function View(m: Mem, i: nat): map<nat, Page>
    requires i in m.spaces
  {
    map v | v in m.spaces[i].vmap && Allows(m, i, v, false) :: m.phys[Pte(m, i, v).index].page
  }

  function Abs(m: Mem): Eager {
    map i | i in m.spaces :: EagerSpace(View(m, i), m.spaces[i].brk)
  }

  lemma ViewSees(m: Mem, i: nat)
    requires Inv(m) && i in m.spaces
    ensures forall v: nat, p: Page :: Sees(m, i, v, p) <==> v in View(m, i) && View(m, i)[v] == p
    ensures forall v: nat :: v in View(m, i) <==> Pte(m, i, v).present
  {
    assert Mirror(m, i);
    forall v: nat | Pte(m, i, v).present ensures v in View(m, i) {
      assert Names(m, PteSlot(i, v), Pte(m, i, v).index);
    }
  }

  // Two processes that see the same have the same view.
  lemma SameView(m: Mem, i: nat, n: Mem, j: nat)
    requires Inv(m) && i in m.spaces && Inv(n) && j in n.spaces
    requires forall v: nat, p: Page :: Sees(n, j, v, p) <==> Sees(m, i, v, p)
    ensures View(n, j) == View(m, i)
  {
    ViewSees(m, i);
    ViewSees(n, j);
    var a, b := View(m, i), View(n, j);
    hide View, Inv, Sees;
    forall v | v in a ensures v in b && b[v] == a[v] {
      assert Sees(m, i, v, a[v]);
    }
    forall v | v in b ensures v in a && a[v] == b[v] {
      assert Sees(n, j, v, b[v]);
    }
  }

  // The view after page v of process i became `page`.
  lemma ViewAfter(m: Mem, n: Mem, i: nat, v: nat, page: Page)
    requires Inv(m) && Inv(n) && i in m.spaces && OthersSee(m, n, i, v)
    requires forall p: Page :: Sees(n, i, v, p) <==> p == page
    ensures Abs(n) == Abs(m)[i := EagerSpace(View(m, i)[v := page], m.spaces[i].brk)]
  {
    hide *;
    forall j | j in m.spaces && j != i ensures j in n.spaces && View(n, j) == View(m, j) && n.spaces[j].brk == m.spaces[j].brk {
      OthersView(m, n, i, v, j);
    }
    OwnView(m, n, i, v, page);
    OthersKept(m, n, i, v);
    AbsAfter(m, n, i, View(m, i)[v := page]);
  }

  lemma OthersKept(m: Mem, n: Mem, i: nat, v: nat)
    requires OthersSee(m, n, i, v)
    ensures n.spaces.Keys == m.spaces.Keys && forall j :: j in m.spaces ==> n.spaces[j].brk == m.spaces[j].brk
  {
    hide Sees;
  }

  lemma OthersView(m: Mem, n: Mem, i: nat, v: nat, j: nat)
    requires Inv(m) && Inv(n) && OthersSee(m, n, i, v) && j in m.spaces && j != i
    ensures j in n.spaces && View(n, j) == View(m, j) && n.spaces[j].brk == m.spaces[j].brk
  {
    hide Inv, View, Sees;
    SameView(m, j, n, j);
  }

  lemma OwnView(m: Mem, n: Mem, i: nat, v: nat, page: Page)
    requires Inv(m) && Inv(n) && i in m.spaces && OthersSee(m, n, i, v)
    requires forall p: Page :: Sees(n, i, v, p) <==> p == page
    ensures i in n.spaces && View(n, i) == View(m, i)[v := page]
  {
    ViewSees(m, i);
    ViewSees(n, i);
    var a, b := View(m, i)[v := page], View(n, i);
    hide View, Inv;
    assert Sees(n, i, v, page);
    forall w | w in a && w != v ensures w in b && b[w] == a[w] {
      assert Sees(m, i, w, a[w]);
    }
    forall w | w in b && w != v ensures w in a && a[w] == b[w] {
      assert Sees(n, i, w, b[w]);
    }
  }

  lemma AbsAfter(m: Mem, n: Mem, i: nat, pages: map<nat, Page>)
    requires i in m.spaces && n.spaces.Keys == m.spaces.Keys && View(n, i) == pages && n.spaces[i].brk == m.spaces[i].brk
    requires forall j :: j in m.spaces && j != i ==> View(n, j) == View(m, j) && n.spaces[j].brk == m.spaces[j].brk
    ensures Abs(n) == Abs(m)[i := EagerSpace(pages, m.spaces[i].brk)]
  {
    hide View;
  }

  // A store through a writable entry reaches a frame nobody else maps.
  lemma WriteIsPrivate(m: Mem, i: nat, v: nat, page: Page)
    requires Inv(m) && i in m.spaces && Allows(m, i, v, true)
    ensures var n := SetFrame(m, Pte(m, i, v).index, Data(page));
      Inv(n) && OthersSee(m, n, i, v) && forall p: Page :: Sees(n, i, v, p) <==> p == page
  {
    var f := Pte(m, i, v).index;
    var n := SetFrame(m, f, Data(page));
    DataWritten(m, n, i, v, page);
    SoleFrame(m, i, v);
    hide Inv;
    forall j: nat, w: nat, p: Page | !(j == i && w == v)
      ensures Sees(n, j, w, p) <==> Sees(m, j, w, p)
    {
      assert Pte(m, j, w).present && Pte(m, j, w).index == f ==> Names(m, PteSlot(j, w), f);
    }
  }

  // A writable frame is in no other slot.
  lemma SoleFrame(m: Mem, i: nat, v: nat)
    requires Inv(m) && Pte(m, i, v).present && Pte(m, i, v).write
    ensures forall s :: Names(m, s, Pte(m, i, v).index) ==> s == PteSlot(i, v)
  {
    hide Pte;
    NamedCounts(m, PteSlot(i, v), Pte(m, i, v).index);
  }

  // ---------- one step ----------

  lemma LoadSimulates(m: Mem, i: nat, vaddr: nat, junk: Page)
    requires Inv(m) && i in m.spaces && |m.phys| == |m.refs| && Load(m, i, vaddr, junk).Ok?
    ensures var (n, b) := Load(m, i, vaddr, junk).value;
      Inv(n) && EagerStep(Abs(m), DoLoad(i, vaddr, junk), Byte(b)) == Ok(Abs(n))
  {
    var v := vaddr / PAGE_SIZE;
    hide Inv, View, OthersSee, Touch;
    TouchKeeps(m, i, vaddr, false, junk);
    var (n, b) := Load(m, i, vaddr, junk).value;
    var page := n.phys[Pte(n, i, v).index].page;
    FetchedPage(m, n, i, v, junk);
    assert Sees(n, i, v, page);
    ViewAfter(m, n, i, v, page);
    hide Load, Pte, Allows, Sees;
  }

  lemma StoreSimulates(m: Mem, i: nat, vaddr: nat, b: uint8, junk: Page)
    requires Inv(m) && i in m.spaces && |m.phys| == |m.refs| && Store(m, i, vaddr, b, junk).Ok?
    ensures var n := Store(m, i, vaddr, b, junk).value;
      Inv(n) && EagerStep(Abs(m), DoStore(i, vaddr, b, junk), Done) == Ok(Abs(n))
  {
    var v := vaddr / PAGE_SIZE;
    hide Inv, View, Sees, OthersSee, Touch, Pte, StillSees, InRange, Fetch;
    TouchKeeps(m, i, vaddr, true, junk);
    var m1 := Touch(m, i, vaddr, true, junk).value;
    var page := m1.phys[Pte(m1, i, v).index].page;
    FetchedPage(m, m1, i, v, junk);
    var n := Store(m, i, vaddr, b, junk).value;
    var page' := page[vaddr % PAGE_SIZE := b];
    StoredOthers(m, m1, n, i, v, page');
    ViewAfter(m, n, i, v, page');
    EagerStore(Abs(m), i, vaddr, b, junk, page);
    hide Store, Allows, EagerStep;
  }

  lemma EagerStore(e: Eager, i: nat, vaddr: nat, b: uint8, junk: Page, page: Page)
    requires i in e && Fetch(e[i], vaddr / PAGE_SIZE, junk) == Ok(e[i].pages[vaddr / PAGE_SIZE := page])
    ensures EagerStep(e, DoStore(i, vaddr, b, junk), Done)
            == Ok(e[i := e[i].(pages := e[i].pages[vaddr / PAGE_SIZE := page[vaddr % PAGE_SIZE := b]])])
  {
    hide Fetch;
    var v := vaddr / PAGE_SIZE;
    var page' := page[vaddr % PAGE_SIZE := b];
    assert e[i].pages[v := page][v := page'] == e[i].pages[v := page'];
  }

  // The page an access finds is the one Fetch finds.
  lemma FetchedPage(m: Mem, n: Mem, i: nat, v: nat, junk: Page)
    requires Inv(m) && i in m.spaces && Allows(n, i, v, false) && InRange(m, i, v) && StillSees(m, n, i, v, junk)
    ensures var page := n.phys[Pte(n, i, v).index].page; var s := Abs(m)[i];
      Fetch(s, v, junk).Ok? && Fetch(s, v, junk).value == s.pages[v := page]
  {
    ViewSees(m, i);
    var page := n.phys[Pte(n, i, v).index].page;
    assert Sees(n, i, v, page);
    var seen := View(m, i);
    hide Inv, View;
    if v in seen {
      assert Sees(m, i, v, seen[v]);
      assert seen[v := page] == seen;
    }
  }

  lemma StoredOthers(m: Mem, m1: Mem, n: Mem, i: nat, v: nat, page: Page)
    requires OthersSee(m, m1, i, v) && Inv(m1) && i in m1.spaces && Allows(m1, i, v, true)
    requires n == SetFrame(m1, Pte(m1, i, v).index, Data(page))
    ensures Inv(n) && OthersSee(m, n, i, v) && forall p: Page :: Sees(n, i, v, p) <==> p == page
  {
    hide Inv, Sees;
    WriteIsPrivate(m1, i, v, page);
  }

  lemma BrkSimulates(m: Mem, i: nat, addr: nat)
    requires Inv(m) && i in m.spaces && |m.phys| == |m.refs| && Brk(m, i, addr).Ok?
    ensures var (n, c) := Brk(m, i, addr).value;
      Inv(n) && EagerStep(Abs(m), DoBrk(i, addr), Code(c)) == Ok(Abs(n))
  {
    hide Inv, View, Sees;
    BrkAnswer(m, i, addr);
    BrkKeeps(m, i, addr);
    var (n, c) := Brk(m, i, addr).value;
    if c == 0 {
      hide Brk;
      ShrunkView(m, n, i, addr / PAGE_SIZE);
      assert Abs(n) == Abs(m)[i := EagerSpace(View(n, i), addr / PAGE_SIZE)];
    }
  }

  lemma BrkAnswer(m: Mem, i: nat, addr: nat)
    requires Inv(m) && i in m.spaces && |m.phys| == |m.refs| && Brk(m, i, addr).Ok?
    ensures addr % PAGE_SIZE == 0 && USER_BASE <= addr / PAGE_SIZE < STACK_BOTTOM
    ensures Brk(m, i, addr).value.1 != 0 ==> addr / PAGE_SIZE > m.spaces[i].brk
  {
    assert Accounted(m);
    hide Core, Mirror;
  }

  lemma ShrunkView(m: Mem, n: Mem, i: nat, page: nat)
    requires Inv(m) && Inv(n) && Rebroken(m, n, i, page)
    ensures View(n, i) == map w | w in View(m, i) && !(page <= w < m.spaces[i].brk) :: View(m, i)[w]
    ensures forall j :: j in m.spaces && j != i ==> View(n, j) == View(m, j)
  {
    hide Inv, View, Sees;
    forall j | j in m.spaces && j != i ensures View(n, j) == View(m, j) {
      SameView(m, j, n, j);
    }
    ViewSees(m, i);
    ViewSees(n, i);
    var a, b := View(m, i), View(n, i);
    var kept := map w | w in a && !(page <= w < m.spaces[i].brk) :: a[w];
    forall w | w in kept ensures w in b && b[w] == kept[w] {
      assert Sees(m, i, w, a[w]);
    }
    forall w | w in b ensures w in kept && kept[w] == b[w] {
      assert Sees(n, i, w, b[w]);
    }
  }

  lemma ForkSimulates(m: Mem, i: nat, c: nat, self: nat)
    requires Inv(m) && i in m.spaces && c !in m.spaces && |m.spaces| < NR_TASKS && |m.phys| == |m.refs|
    requires Fork(m, i, c, self).Ok?
    ensures var n := Fork(m, i, c, self).value;
      Inv(n) && EagerStep(Abs(m), DoFork(i, c, self), Done) == Ok(Abs(n))
  {
    hide Inv, View, Fork, Sees;
    ForkKeeps(m, i, c, self);
    var n := Fork(m, i, c, self).value;
    ForkedSees(m, n, i, c);
    forall j | j in n.spaces ensures View(n, j) == View(m, if j == c then i else j) {
      SameView(m, if j == c then i else j, n, j);
    }
    assert Abs(n) == Abs(m)[c := Abs(m)[i]];
  }

  lemma ExitSimulates(m: Mem, i: nat)
    requires Inv(m) && i in m.spaces && |m.phys| == |m.refs|
    ensures Exit(m, i).Ok?
    ensures var n := Exit(m, i).value;
      Inv(n) && EagerStep(Abs(m), DoExit(i), Done) == Ok(Abs(n))
  {
    hide Inv, View, Exit, Sees;
    ExitKeeps(m, i);
    var n := Exit(m, i).value;
    ExitPages(m, n, i);
    forall j | j in n.spaces ensures View(n, j) == View(m, j) {
      SameView(m, j, n, j);
    }
    assert Abs(n) == Abs(m) - {i};
  }

  lemma StartSimulates(m: Mem, i: nat, self: nat)
    requires Inv(m) && i !in m.spaces && |m.spaces| < NR_TASKS && |m.phys| == |m.refs|
    ensures var n := NewSpace(m, i, self);
      Inv(n) && EagerStep(Abs(m), DoStart(i, self), Done) == Ok(Abs(n))
  {
    hide Inv, View, Sees, NewSpace;
    var n := NewSpace(m, i, self);
    StartTables(m, n, i, self);
    forall j | j in m.spaces ensures View(n, j) == View(m, j) {
      SameView(m, j, n, j);
    }
    assert Abs(n) == Abs(m)[i := EagerSpace(map[], USER_BASE)];
  }

  lemma StartTables(m: Mem, n: Mem, i: nat, self: nat)
    requires Inv(m) && i !in m.spaces && |m.spaces| < NR_TASKS && n == NewSpace(m, i, self)
    ensures Inv(n) && n.spaces.Keys == m.spaces.Keys + {i}
    ensures forall j :: j in m.spaces ==> n.spaces[j] == m.spaces[j]
    ensures View(n, i) == map[] && n.spaces[i].brk == USER_BASE
    ensures forall j: nat, w: nat, p: Page :: Sees(n, j, w, p) <==> Sees(m, j, w, p)
  {
    hide *;
    InvIs(m);
    StartEntries(m, n, i, self);
    SameNamesCore(m, n);
    StartMirrors(m, n, i);
    StartInv(m, n, i);
    StartSees(m, n, i);
  }

  // The new directory maps no user page.
  lemma StartEntries(m: Mem, n: Mem, i: nat, self: nat)
    requires i !in m.spaces && n == NewSpace(m, i, self)
    ensures n.spaces.Keys == m.spaces.Keys + {i} && n.phys == m.phys && n.refs == m.refs && n.start == m.start && n.free == m.free
    ensures forall j :: j in m.spaces ==> n.spaces[j] == m.spaces[j]
    ensures n.spaces[i].vmap == {} && n.spaces[i].brk == USER_BASE
    ensures forall j: nat, w: nat :: Pte(n, j, w) == Pte(m, j, w)
    ensures forall s, p: nat :: Names(n, s, p) <==> Names(m, s, p)
  {
    assert forall j: nat, w: nat :: Pte(n, j, w) == Pte(m, j, w);
    forall s, p: nat ensures Names(n, s, p) <==> Names(m, s, p) {
    }
  }

  lemma StartInv(m: Mem, n: Mem, i: nat)
    requires Inv(m) && Core(n) && n.spaces.Keys == m.spaces.Keys + {i} && i !in m.spaces && |m.spaces| < NR_TASKS
    requires forall j :: j in n.spaces ==> Mirror(n, j)
    ensures Inv(n)
  {
    hide Core, Mirror;
    assert |n.spaces.Keys| == |m.spaces.Keys| + 1;
  }

  lemma StartSees(m: Mem, n: Mem, i: nat)
    requires n.phys == m.phys && i in n.spaces && n.spaces[i].vmap == {}
    requires forall j: nat, w: nat :: Pte(n, j, w) == Pte(m, j, w)
    ensures View(n, i) == map[] && forall j: nat, w: nat, p: Page :: Sees(n, j, w, p) <==> Sees(m, j, w, p)
  {
    hide Pte;
  }

  lemma StartMirrors(m: Mem, n: Mem, i: nat)
    requires Inv(m) && n.spaces.Keys == m.spaces.Keys + {i} && i !in m.spaces
    requires n.spaces[i].vmap == {} && n.spaces[i].brk == USER_BASE
    requires forall j :: j in m.spaces ==> n.spaces[j] == m.spaces[j]
    requires forall j: nat, w: nat :: Pte(n, j, w) == Pte(m, j, w)
    ensures forall j :: j in n.spaces ==> Mirror(n, j)
  {
    hide Core;
    assert forall w: nat :: !Pte(m, i, w).present;
    hide Pte;
    forall j | j in n.spaces ensures Mirror(n, j) {
      assert j != i ==> Mirror(m, j);
    }
  }

  // A step of the kernel's machine is a step of the reference machine with the same
  // observation.
  lemma StepSimulates(m: Mem, cmd: Command)
    requires Inv(m) && |m.phys| == |m.refs| && Step(m, cmd).Ok?
    ensures var (n, o) := Step(m, cmd).value;
      Inv(n) && |n.phys| == |n.refs| && EagerStep(Abs(m), cmd, o) == Ok(Abs(n))
  {
    match cmd
    case DoStart(i, self) => StartSimulates(m, i, self);
    case DoLoad(i, vaddr, junk) => LoadSimulates(m, i, vaddr, junk);
    case DoStore(i, vaddr, b, junk) => StoreSimulates(m, i, vaddr, b, junk);
    case DoBrk(i, addr) => BrkSimulates(m, i, addr);
    case DoFork(i, c, self) => ForkSimulates(m, i, c, self);
    case DoExit(i) => ExitSimulates(m, i);
    hide EagerStep, Abs;
  }

  // ---------- whole runs ----------

  function Run(m: Mem, cmds: seq<Command>): Result<(Mem, seq<Observation>)>
    requires |m.phys| == |m.refs|
    decreases |cmds|
  {
    if cmds == [] then Ok((m, []))
    else
      var r :- Step(m, cmds[0]);
      if |r.0.phys| != |r.0.refs| then Halt(Undefined)
      else
        var rest :- Run(r.0, cmds[1..]);
        Ok((rest.0, [r.1] + rest.1))
  }

  function EagerRun(e: Eager, cmds: seq<Command>, os: seq<Observation>): Result<Eager>
    decreases |cmds|
  {
    if cmds == [] && os == [] then Ok(e)
    else if cmds == [] || os == [] then Halt(Undefined)
    else
      var e1 :- EagerStep(e, cmds[0], os[0]);
      EagerRun(e1, cmds[1..], os[1..])
  }

  // For every run of loads, stores, faults, brk, fork and exit: each process
  // observes exactly what it would observe if fork copied every page at once.
  lemma {:induction false} CopyOnWriteInvisible(m: Mem, cmds: seq<Command>)
    requires Inv(m) && |m.phys| == |m.refs| && Run(m, cmds).Ok?
    ensures var (n, os) := Run(m, cmds).value;
      Inv(n) && EagerRun(Abs(m), cmds, os) == Ok(Abs(n))
    decreases |cmds|
  {
    if cmds != [] {
      StepSimulates(m, cmds[0]);
      var r := Step(m, cmds[0]).value;
      CopyOnWriteInvisible(r.0, cmds[1..]);
      var (n, os) := Run(m, cmds).value;
      assert os[1..] == Run(r.0, cmds[1..]).value.1;
      hide Inv, Step, EagerStep, Abs;
    }
  }

  lemma BootInv(total: nat, mapPages: nat)
    requires KERNEL_FRAMES <= total && mapPages <= 256
    ensures var m := Boot(total, mapPages); Inv(m) && |m.phys| == |m.refs| && Abs(m) == map[]
  {
    var m := Boot(total, mapPages);
    hide *;
    BootIs(total, mapPages);
    BootZeros(total);
    NoNames(m);
    EmptyInv(m);
  }

  lemma BootIs(total: nat, mapPages: nat)
    requires KERNEL_FRAMES <= total && mapPages <= 256
    ensures var m := Boot(total, mapPages);
      && m.spaces == map[] && Abs(m) == map[] && m.refs == BootMap(total) && |m.phys| == |m.refs| == total
      && 256 <= m.start <= 512 && m.free == total - m.start
  {
  }

  lemma EmptyInv(m: Mem)
    requires m.spaces == map[] && |m.phys| == |m.refs| && KERNEL_FRAMES <= |m.refs| && m.refs == BootMap(|m.refs|)
    requires (forall s, p: nat :: !Names(m, s, p)) && (forall p: nat :: Refs(m, p) == {}) && forall j: nat, w: nat :: !Pte(m, j, w).present
    requires 256 <= m.start <= 512 && m.free == |m.refs| - m.start && |Zeros(m.refs)| == |m.refs| - KERNEL_FRAMES
    ensures Inv(m)
  {
    hide Pte, Names, Zeros;
  }

  lemma NoNames(m: Mem)
    requires m.spaces == map[]
    ensures forall s, p: nat :: !Names(m, s, p)
    ensures forall p: nat :: Refs(m, p) == {}
    ensures forall j: nat, w: nat :: !Pte(m, j, w).present
  {
    assert forall s, p: nat :: !Names(m, s, p);
    forall p: nat ensures Refs(m, p) == {} {
    }
  }

  lemma BootZeros(total: nat)
    requires KERNEL_FRAMES <= total
    ensures |Zeros(BootMap(total))| == total - KERNEL_FRAMES
  {
    assert Zeros(BootMap(total)) == Interval(KERNEL_FRAMES, total);
  }

  ghost function Interval(lo: nat, hi: nat): (s: set<nat>)
    requires lo <= hi
    ensures |s| == hi - lo && forall p: nat :: p in s <==> lo <= p < hi
    decreases hi
  {
    if lo == hi then {} else Interval(lo, hi - 1) + {hi - 1}
  }

  // Every state the machine can reach from boot keeps the invariant, and shows what
  // the reference machine started with no process shows.
  lemma ReachableStates(total: nat, mapPages: nat, cmds: seq<Command>)
    requires KERNEL_FRAMES <= total && mapPages <= 256
    ensures |Boot(total, mapPages).phys| == |Boot(total, mapPages).refs|
    ensures var r := Run(Boot(total, mapPages), cmds);
      r.Ok? ==> Inv(r.value.0) && EagerRun(map[], cmds, r.value.1) == Ok(Abs(r.value.0))
  {
    hide Inv, Boot, Run, EagerRun, Abs;
    BootInv(total, mapPages);
    if Run(Boot(total, mapPages), cmds).Ok? {
      CopyOnWriteInvisible(Boot(total, mapPages), cmds);
    }
  }

  // What a caller may ask for: a live process, an address inside its limits, an
  // aligned brk between the heap's bounds, a free task slot.
  predicate Legal(m: Mem, cmd: Command) {
    match cmd
    case DoStart(i, self) => i !in m.spaces && |m.spaces| < NR_TASKS
    case DoLoad(i, vaddr, junk) => InRange(m, i, vaddr / PAGE_SIZE)
    case DoStore(i, vaddr, b, junk) => InRange(m, i, vaddr / PAGE_SIZE)
    case DoBrk(i, addr) => i in m.spaces && addr % PAGE_SIZE == 0 && USER_BASE <= addr / PAGE_SIZE < STACK_BOTTOM
    case DoFork(i, c, self) => i in m.spaces && c !in m.spaces && |m.spaces| < NR_TASKS
    case DoExit(i) => i in m.spaces
  }

  // The asserts of memory.cpp never fire: a legal request halts the kernel only by
  // running out of frames, an illegal one always does.
  lemma HaltsExactlyWhenIllegal(m: Mem, cmd: Command)
    requires Inv(m) && |m.phys| == |m.refs|
    ensures Legal(m, cmd) ==> Step(m, cmd).Ok? || Step(m, cmd).why == OutOfMemory
    ensures !Legal(m, cmd) ==> Step(m, cmd).Halt?
  {
    hide Inv;
    match cmd
    case DoStart(i, self) =>
    case DoLoad(i, vaddr, junk) => if i in m.spaces { TouchKeeps(m, i, vaddr, false, junk); }
    case DoStore(i, vaddr, b, junk) => if i in m.spaces { TouchKeeps(m, i, vaddr, true, junk); }
    case DoBrk(i, addr) => if Legal(m, cmd) { BrkKeeps(m, i, addr); }
    case DoFork(i, c, self) => if Legal(m, cmd) { ForkKeeps(m, i, c, self); }
    case DoExit(i) => if Legal(m, cmd) { ExitKeeps(m, i); }
  }
}
