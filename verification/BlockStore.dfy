/**
 The cache is invisible.  The reference machine below has no buffers, no hash table
 and no write-back: it is a map from blocks to contents, and a handle is the name of
 a block that is held.  Every run of the cache is a run of the reference machine.
 */
module BlockStore {
  import opened Outcome
  import opened BufferCache

  // What the kernel does with blocks.  A handle is what bread returned; it may be used
  // as often as bread has returned it and it has not been released.
  datatype Command =
    | DoRead(k: Key)
    | DoModify(handle: nat, data: Data)
    | DoSync(handle: nat)
    | DoRelease(handle: nat)

  datatype Answer = Got(handle: nat, data: Data) | Done

  predicate Held(c: Cache, i: nat) {
    i < |c.buffers| && c.buffers[i].count > 0
  }

  function Step(c: Cache, cmd: Command): Result<(Cache, Answer)>
    requires Shape(c)
  {
    match cmd
    case DoRead(k) => var (r, i) :- Bread(c, k); Ok((r, Got(i, r.buffers[i].data)))
    case DoModify(i, data) => if Held(c, i) then Ok((Modify(c, i, data), Done)) else Halt(Undefined)
    case DoSync(i) => if Held(c, i) then Ok((Bwrite(c, i), Done)) else Halt(Undefined)
    case DoRelease(i) => if Held(c, i) then var r :- Brelse(c, i); Ok((r, Done)) else Halt(Undefined)
  }

  // ---------- the reference machine ----------

  // What is held: which block, and how many times.
  datatype Hold = Hold(key: Key, count: int)

  datatype Blocks = Blocks(store: map<Key, Data>, held: map<nat, Hold>)

  // A block that is held is always returned under the handle it is held by.
  predicate Names(held: map<nat, Hold>, i: nat, k: Key) {
    && (i in held ==> held[i].key == k)
    && forall j :: j in held && held[j].key == k ==> j == i
  }

  // The state after `cmd` has been observed to answer `o`; Halt if it cannot.
  function BlocksStep(a: Blocks, cmd: Command, o: Answer): Result<Blocks> {
    match cmd
    case DoRead(k) =>
      if o.Got? && o.data == OnDisk(a.store, k) && Names(a.held, o.handle, k) then
        var n := if o.handle in a.held then a.held[o.handle].count else 0;
        Ok(a.(held := a.held[o.handle := Hold(k, n + 1)]))
      else Halt(Undefined)
    case DoModify(i, data) =>
      if o == Done && i in a.held then Ok(a.(store := a.store[a.held[i].key := data])) else Halt(Undefined)
    case DoSync(i) =>
      if o == Done && i in a.held then Ok(a) else Halt(Undefined)
    case DoRelease(i) =>
      if o == Done && i in a.held then
        var h := a.held[i];
        Ok(a.(held := if h.count == 1 then a.held - {i} else a.held[i := h.(count := h.count - 1)]))
      else Halt(Undefined)
  }

  // ---------- what the cache stands for ----------

  function Holds(c: Cache): map<nat, Hold> {
    map i: nat | i < |c.buffers| && Held(c, i) :: Hold(c.buffers[i].key, c.buffers[i].count)
  }

  ghost predicate Stands(c: Cache, a: Blocks) {
    Inv(c) && a.held == Holds(c) && forall k :: Content(c, k) == OnDisk(a.store, k)
  }

  // The cache goes from c to r, holding all but handle i as before.
  ghost predicate Others(c: Cache, r: Cache, i: nat) {
    forall j: nat :: j != i ==> Held(r, j) == Held(c, j) && (Held(c, j) ==> r.buffers[j] == c.buffers[j])
  }

  lemma HoldsAfter(c: Cache, r: Cache, i: nat)
    requires Others(c, r, i)
    ensures Held(r, i) ==> Holds(r) == Holds(c)[i := Hold(r.buffers[i].key, r.buffers[i].count)]
    ensures !Held(r, i) ==> Holds(r) == Holds(c) - {i}
  {
  }

  lemma ReadOthers(c: Cache, k: Key, r: Cache, i: nat)
    requires Inv(c) && Inv(r) && ReadStep(c, k, r, i)
    ensures Others(c, r, i) && Held(r, i) && Names(Holds(c), i, k)
    ensures r.buffers[i].count == 1 + if Held(c, i) then c.buffers[i].count else 0
  {
    hide Cached, Buckets, Coherent, SameContent;
    var j := Cached(c.buffers, k);
    CachedKey(c.buffers, k);
    if j != -1 {
      assert r.buffers[j].key == k;
    }
    forall j: nat | Held(c, j) && c.buffers[j].key == k ensures j == i {
      CachedIs(c, j);
    }
    if i < |c.buffers| && c.buffers[i].count > 0 {
      CachedIs(c, i);
    }
  }

  lemma ReadSimulates(c: Cache, a: Blocks, k: Key)
    requires Stands(c, a) && Bread(c, k).Ok?
    ensures var (r, i) := Bread(c, k).value; var o := Got(i, r.buffers[i].data);
      r.capacity == c.capacity && BlocksStep(a, DoRead(k), o).Ok? && Stands(r, BlocksStep(a, DoRead(k), o).value)
  {
    hide Bread, Content, OnDisk, Pins;
    BreadKeeps(c, k);
    var (r, i) := Bread(c, k).value;
    ReadOthers(c, k, r, i);
    HoldsAfter(c, r, i);
    hide Names, Holds, Others, Held, Inv;
    assert Names(a.held, i, k);
    HeldIs(c, i);
  }

  lemma HeldIs(c: Cache, i: nat)
    ensures i in Holds(c) <==> Held(c, i)
    ensures Held(c, i) ==> Holds(c)[i] == Hold(c.buffers[i].key, c.buffers[i].count)
  {
  }

  lemma ModifySimulates(c: Cache, a: Blocks, i: nat, data: Data)
    requires Stands(c, a) && Held(c, i)
    ensures BlocksStep(a, DoModify(i, data), Done).Ok?
    ensures Stands(Modify(c, i, data), BlocksStep(a, DoModify(i, data), Done).value)
  {
    hide Inv, Content;
    ModifyKeeps(c, i, data);
    HeldIs(c, i);
    HoldsAfter(c, Modify(c, i, data), i);
    hide Holds, Held;
  }

  lemma SyncSimulates(c: Cache, a: Blocks, i: nat)
    requires Stands(c, a) && Held(c, i)
    ensures Stands(Bwrite(c, i), a)
  {
    hide Inv, Content, Bwrite, OnDisk;
    BwriteKeeps(c, i);
    HeldIs(c, i);
    HoldsAfter(c, Bwrite(c, i), i);
    hide Holds;
  }

  lemma ReleaseSimulates(c: Cache, a: Blocks, i: nat)
    requires Stands(c, a) && Held(c, i)
    ensures Brelse(c, i).Ok? && BlocksStep(a, DoRelease(i), Done).Ok?
    ensures Stands(Brelse(c, i).value, BlocksStep(a, DoRelease(i), Done).value)
  {
    hide Inv, Content, Brelse, OnDisk;
    BrelseKeeps(c, i);
    HeldIs(c, i);
    HoldsAfter(c, Brelse(c, i).value, i);
    hide Holds;
  }

  // A step of the cache is a step of the reference machine with the same answer.
  lemma StepSimulates(c: Cache, a: Blocks, cmd: Command)
    requires Stands(c, a) && Step(c, cmd).Ok?
    ensures var (r, o) := Step(c, cmd).value;
      BlocksStep(a, cmd, o).Ok? && Stands(r, BlocksStep(a, cmd, o).value)
  {
    hide Inv, Content, Bread, Brelse, Bwrite, Modify, Stands, BlocksStep;
    assert Inv(c) by { StandsInv(c, a); }
    match cmd
    case DoRead(k) => ReadSimulates(c, a, k);
    case DoModify(i, data) => ModifySimulates(c, a, i, data);
    case DoSync(i) => SyncSimulates(c, a, i); SyncAnswer(c, a, i);
    case DoRelease(i) => ReleaseSimulates(c, a, i);
  }

  lemma StandsInv(c: Cache, a: Blocks)
    requires Stands(c, a)
    ensures Inv(c) && Shape(c)
  {
  }

  lemma SyncAnswer(c: Cache, a: Blocks, i: nat)
    requires Stands(c, a) && Held(c, i)
    ensures BlocksStep(a, DoSync(i), Done) == Ok(a)
  {
    HeldIs(c, i);
  }

  // When a command stops.  No assert of the source can fail; bread waits exactly when
  // all buffers are held and none of them holds the block.
  lemma StopsExactlyWhen(c: Cache, a: Blocks, cmd: Command)
    requires Stands(c, a)
    ensures Step(c, cmd).Halt? <==>
      if cmd.DoRead? then (forall i: nat :: i < c.capacity ==> i in a.held) && (forall i :: i in a.held ==> a.held[i].key != cmd.k)
      else cmd.handle !in a.held
    ensures cmd.DoRead? && Step(c, cmd).Halt? ==> Step(c, cmd).why == WouldSleep
  {
    hide Bread, Brelse, Bwrite, Modify, Content;
    assert Inv(c);
    match cmd
    case DoRead(k) => BreadKeeps(c, k); FullMeans(c, k);
    case DoModify(i, data) => HeldIs(c, i);
    case DoSync(i) => HeldIs(c, i);
    case DoRelease(i) => HeldIs(c, i); if Held(c, i) { BrelseKeeps(c, i); }
    hide Inv;
  }

  lemma FullMeans(c: Cache, k: Key)
    requires Inv(c)
    ensures AllHeld(c) && Cached(c.buffers, k) == -1 <==>
      (forall i: nat :: i < c.capacity ==> i in Holds(c)) && (forall i :: i in Holds(c) ==> Holds(c)[i].key != k)
  {
    assert Shape(c);
    hide Cached, Buckets, Coherent, Released;
    CachedKey(c.buffers, k);
    var j := Cached(c.buffers, k);
    if AllHeld(c) {
      forall i: nat ensures i in Holds(c) <==> i < c.capacity {
        HeldIs(c, i);
      }
      if j == -1 {
        forall i: nat | i < c.capacity ensures Holds(c)[i].key != k {
          CachedIs(c, i);
        }
      } else {
        assert Holds(c)[j as nat].key == k;
      }
    } else if forall i: nat :: i < c.capacity ==> i in Holds(c) {
      HeldIs(c, |c.buffers|);
      forall i: nat | i < |c.buffers| ensures c.buffers[i].count > 0 {
        HeldIs(c, i);
      }
    }
  }

  // ---------- whole runs ----------

  ghost function Run(c: Cache, cmds: seq<Command>): Result<(Cache, seq<Answer>)>
    requires Shape(c)
    decreases |cmds|
  {
    if cmds == [] then Ok((c, []))
    else
      var (r, o) :- Step(c, cmds[0]);
      if !Shape(r) then Halt(Undefined)
      else
        var (n, os) :- Run(r, cmds[1..]);
        Ok((n, [o] + os))
  }

  function BlocksRun(a: Blocks, cmds: seq<Command>, os: seq<Answer>): Result<Blocks>
    decreases |cmds|
  {
    if cmds == [] && os == [] then Ok(a)
    else if cmds == [] || os == [] then Halt(Undefined)
    else
      var a1 :- BlocksStep(a, cmds[0], os[0]);
      BlocksRun(a1, cmds[1..], os[1..])
  }

  // For every run of reads, writes, write-backs and releases, with whatever evictions
  // they cause: every read answers with what was last written to the block, and a
  // handle names the same block until its last release.
  lemma {:induction false} CacheIsInvisible(c: Cache, a: Blocks, cmds: seq<Command>)
    requires Stands(c, a) && Run(c, cmds).Ok?
    ensures var (n, os) := Run(c, cmds).value;
      BlocksRun(a, cmds, os).Ok? && Stands(n, BlocksRun(a, cmds, os).value)
    decreases |cmds|
  {
    hide Stands, Step, BlocksStep;
    StandsInv(c, a);
    hide Inv;
    if cmds != [] {
      assert Stands(c, a);
      StepSimulates(c, a, cmds[0]);
      var (r, o) := Step(c, cmds[0]).value;
      var a1 := BlocksStep(a, cmds[0], o).value;
      CacheIsInvisible(r, a1, cmds[1..]);
      var (n, os) := Run(c, cmds).value;
      assert os[1..] == Run(r, cmds[1..]).value.1;
    }
  }

  // From an empty pool over any disk; once nothing is held the disk alone holds
  // everything that was written.
  lemma RunsFromBoot(capacity: nat, disk: map<Key, Data>, cmds: seq<Command>)
    ensures Stands(Init(capacity, disk), Blocks(disk, map[]))
    ensures var c := Init(capacity, disk); Shape(c) && Run(c, cmds).Ok? ==>
      var (n, os) := Run(c, cmds).value;
      var a := BlocksRun(Blocks(disk, map[]), cmds, os);
      a.Ok? && Stands(n, a.value)
      && (a.value.held == map[] ==> forall k :: OnDisk(n.disk, k) == OnDisk(a.value.store, k))
  {
    var c, a := Init(capacity, disk), Blocks(disk, map[]);
    InitInv(capacity, disk);
    assert Holds(c) == map[];
    assert forall k :: Cached(c.buffers, k) == -1;
    assert Stands(c, a);
    hide Run, BlocksRun, Init;
    if Run(c, cmds).Ok? {
      CacheIsInvisible(c, a, cmds);
      var (n, os) := Run(c, cmds).value;
      var b := BlocksRun(a, cmds, os).value;
      if b.held == map[] {
        forall k ensures OnDisk(n.disk, k) == OnDisk(b.store, k) {
          NothingHeld(n, k);
        }
      }
    }
  }

  lemma NothingHeld(c: Cache, k: Key)
    requires Inv(c) && Holds(c) == map[]
    ensures OnDisk(c.disk, k) == Content(c, k)
  {
    var i := Cached(c.buffers, k);
    if i != -1 {
      HeldIs(c, i);
    }
    IdleIsDurable(c, k);
  }
}
