/**
 src/fs/bmap.cpp as it is written: balloc's search through the bitmap blocks and the
 loop of bmap down the index blocks.  Both are proved to compute the function of the
 same name in module BlockMap.
 */
module FileBlocks {
  import opened Outcome
  import opened Bitmap
  import M = BlockMap

  // The bits of the bitmap blocks one after the other.
  function Flat(blocks: seq<seq<bool>>): (f: seq<bool>) {
    if blocks == [] then [] else Flat(blocks[..|blocks| - 1]) + blocks[|blocks| - 1]
  }

  ghost predicate Whole(blocks: seq<seq<bool>>) {
    forall i :: 0 <= i < |blocks| ==> |blocks[i]| == 8192
  }

  lemma {:induction false} FlatLength(blocks: seq<seq<bool>>)
    requires Whole(blocks)
    ensures |Flat(blocks)| == |blocks| * 8192
  {
    if blocks != [] {
      FlatLength(blocks[..|blocks| - 1]);
    }
  }

  lemma {:induction false} FlatAt(blocks: seq<seq<bool>>, i: nat, k: nat)
    requires Whole(blocks) && i < |blocks| && k < 8192
    ensures |Flat(blocks)| == |blocks| * 8192 && Flat(blocks)[i * 8192 + k] == blocks[i][k]
  {
    var n := |blocks| - 1;
    FlatLength(blocks);
    FlatLength(blocks[..n]);
    if i < n {
      FlatAt(blocks[..n], i, k);
    }
  }

  lemma {:induction false} FlatSet(blocks: seq<seq<bool>>, i: nat, s: nat)
    requires Whole(blocks) && i < |blocks| && s < 8192
    ensures i * 8192 + s < |Flat(blocks)|
    ensures Flat(blocks[i := blocks[i][s := true]]) == Flat(blocks)[i * 8192 + s := true]
  {
    var n := |blocks| - 1;
    var b' := blocks[i][s := true];
    FlatLength(blocks);
    FlatLength(blocks[..n]);
    if i < n {
      FlatSet(blocks[..n], i, s);
      assert blocks[i := b'][..n] == blocks[..n][i := b'];
    } else {
      assert blocks[i := b'][..n] == blocks[..n];
    }
  }

  lemma ClearOne(f: seq<bool>, x: int)
    ensures IsClear(f, x, 1) <==> 0 <= x < |f| && !f[x]
  {
  }

  lemma NoneClear(f: seq<bool>)
    requires forall x :: 0 <= x < |f| ==> f[x]
    ensures FirstFit(f, 1, 0) == -1
  {
    forall x ensures !IsClear(f, x, 1) {
      ClearOne(f, x);
    }
    assert IsFirstFit(f, 1, FirstFit(f, 1, 0));
  }

  lemma FirstClear(f: seq<bool>, block: seq<bool>, i: nat, s: nat)
    requires |block| == 8192 && (i + 1) * 8192 <= |f| && IsFirstFit(block, 1, s)
    requires forall k :: 0 <= k < 8192 ==> f[i * 8192 + k] == block[k]
    requires forall x :: 0 <= x < i * 8192 ==> f[x]
    ensures FirstFit(f, 1, 0) == i * 8192 + s
  {
    ClearOne(block, s);
    ClearOne(f, i * 8192 + s);
    assert f[i * 8192 + s] == block[s];
    forall x | 0 <= x < i * 8192 + s ensures !IsClear(f, x, 1) {
      ClearOne(f, x);
      if x >= i * 8192 {
        ClearOne(block, x - i * 8192);
        assert f[i * 8192 + (x - i * 8192)] == block[x - i * 8192];
      }
    }
    FirstFitIs(f, 1, i * 8192 + s, 0);
  }

  lemma BlockFull(f: seq<bool>, block: seq<bool>, i: nat)
    requires |block| == 8192 && (i + 1) * 8192 <= |f| && IsFirstFit(block, 1, -1)
    requires forall k :: 0 <= k < 8192 ==> f[i * 8192 + k] == block[k]
    requires forall x :: 0 <= x < i * 8192 ==> f[x]
    ensures forall x :: 0 <= x < (i + 1) * 8192 ==> f[x]
  {
    forall x | i * 8192 <= x < (i + 1) * 8192 ensures f[x] {
      ClearOne(block, x - i * 8192);
      assert f[i * 8192 + (x - i * 8192)] == block[x - i * 8192];
    }
  }

  ghost predicate FilledFrom(v: M.Volume, w: M.Volume, node: M.Node, index: nat, create: bool)
    requires M.Sized(v) && index < M.Width(node)
  {
    if M.Get(v, node, index) == 0 && create then M.Allocate(v, node, index) == Ok(w) else w == v
  }

  lemma VisitStops(v: M.Volume, node: M.Node, index: nat)
    requires M.Sized(v) && index < M.Width(node) && M.Get(v, node, index) == 0 && M.Allocate(v, node, index).Halt?
    ensures M.Visit(v, node, index, true) == Halt(M.Allocate(v, node, index).why)
  {
    hide M.Allocate;
  }

  lemma VisitUnpinned(v: M.Volume, w: M.Volume, node: M.Node, index: nat, create: bool)
    requires M.Sized(v) && M.Sized(w) && index < M.Width(node) && M.BlockOf(w, node) !in w.pins
    requires FilledFrom(v, w, node, index, create)
    ensures M.Visit(v, node, index, create) == Halt(AssertFailed)
  {
    hide M.Allocate;
  }

  lemma TooLarge(v: M.Volume, block: nat, create: bool)
    requires M.Sized(v) && block >= M.TOTAL_BLOCK
    ensures M.Bmap(v, block, create) == Halt(AssertFailed)
  {
  }

  lemma VisitDone(v: M.Volume, w: M.Volume, node: M.Node, index: nat, create: bool)
    requires M.Sized(v) && M.Sized(w) && index < M.Width(node) && M.BlockOf(w, node) in w.pins
    requires FilledFrom(v, w, node, index, create)
    ensures var u := w.(pins := w.pins - multiset{M.BlockOf(w, node)});
      M.Get(u, node, index) == M.Get(w, node, index) && Visited(v, node, index, create, u, M.Get(u, node, index))
  {
    hide M.Allocate;
  }

  ghost predicate Full(f: seq<bool>, n: nat) {
    n <= |f| && forall x :: 0 <= x < n ==> f[x]
  }

  // The first clear bit of f, s, is set in g.
  ghost predicate Took(f: seq<bool>, g: seq<bool>, s: int) {
    0 <= s < |f| && FirstFit(f, 1, 0) == s && g == f[s := true]
  }

  lemma Scanned(block: seq<bool>, s: int)
    requires |block| == 8192 && s == FirstFit(block, 1, 0)
    ensures IsFirstFit(block, 1, s) && (s != -1 ==> 0 <= s < 8192 && Fill(block, s, 1, true) == block[s := true])
  {
    ClearOne(block, s);
  }

  class FileBlocks {
    const zone: array<nat>
    const home: nat
    var blocks: map<nat, seq<nat>>
    const zmaps: seq<BitmapT>
    const first: nat
    const zones: nat
    var pins: multiset<nat>

    ghost function Maps(): (b: seq<seq<bool>>)
      reads set m | m in zmaps :: m.bits
      ensures |b| == |zmaps| && forall i :: 0 <= i < |zmaps| ==> b[i] == zmaps[i].View()
    {
      seq(|zmaps|, i requires 0 <= i < |zmaps| reads set m | m in zmaps :: m.bits => zmaps[i].View())
    }

    ghost function View(): M.Volume
      reads this, zone, set m | m in zmaps :: m.bits
    {
      M.Volume(zone[..], home, blocks, Flat(Maps()), first, zones, pins)
    }

    // The bitmap blocks are different buffers of 1024 bytes; bit k of block i stands for
    // zone i * 8192 + k + first - 1.
    ghost predicate Valid() {
      && zone.Length == M.DIRECT_BLOCK + 2 && first > 0 && zones < 0x1_0000 && |zmaps| <= M.ZMAP_NR
      && (forall i :: 0 <= i < |zmaps| ==> zmaps[i].bits.Length == 1024 && zmaps[i].offset == i * 8192 + first - 1)
      && (forall i, j :: 0 <= i < j < |zmaps| ==> zmaps[i].bits != zmaps[j].bits)
    }

    // One bitmap block is searched; the first clear bit is set in place.
    method ScanBlock(i: nat) returns (bit: int)
      requires Valid() && i < |zmaps|
      modifies zmaps[i].bits
      ensures Whole(old(Maps()))
      ensures var s := FirstFit(old(Maps())[i], 1, 0);
        if s == -1 then bit == -1 && Maps() == old(Maps())
        else bit == s + i * 8192 + first - 1 && 0 <= s < 8192 && Maps() == old(Maps())[i := old(Maps())[i][s := true]]
    {
      hide FirstFit, IsFirstFit, Flags, Fill;
      ghost var was := Maps();
      bit := zmaps[i].Scan(1);
      Scanned(was[i], FirstFit(was[i], 1, 0));
      forall j | 0 <= j < |zmaps| && j != i ensures zmaps[j].View() == was[j] {
        assert zmaps[j].bits != zmaps[i].bits;
      }
      OneChanged(was, i);
    }

    lemma OneChanged(was: seq<seq<bool>>, i: nat)
      requires i < |zmaps| == |was|
      requires forall j :: 0 <= j < |zmaps| && j != i ==> zmaps[j].View() == was[j]
      ensures Maps() == was[i := zmaps[i].View()]
    {
      hide Flags;
    }

    // Bitmap block i is searched, when those before it are full.
    method SearchBlock(i: nat) returns (bit: int)
      requires Valid() && i < |zmaps| && Full(Flat(Maps()), i * 8192)
      modifies zmaps[i].bits
      ensures bit == -1 ==> Flat(Maps()) == old(Flat(Maps())) && Full(Flat(Maps()), (i + 1) * 8192)
      ensures bit != -1 ==> Took(old(Flat(Maps())), Flat(Maps()), bit - first + 1)
    {
      ghost var was, f, s := Maps(), Flat(Maps()), FirstFit(Maps()[i], 1, 0);
      assert Whole(was);
      FlatLength(was);
      hide Flat, IsFirstFit, FirstFit;
      forall k | 0 <= k < 8192 ensures f[i * 8192 + k] == was[i][k] {
        FlatAt(was, i, k);
      }
      bit := ScanBlock(i);
      Scanned(was[i], s);
      if bit != -1 {
        FirstClear(f, was[i], i, s);
        FlatSet(was, i, s);
      } else {
        BlockFull(f, was[i], i);
      }
    }

    // The bitmap blocks are searched in turn; a block that is not there stops the kernel.
    method Search() returns (r: Result<int>)
      requires Valid()
      modifies set m | m in zmaps :: m.bits
      ensures var f := old(Flat(Maps()));
        if FirstFit(f, 1, 0) == -1 then Flat(Maps()) == f && r == if |zmaps| == M.ZMAP_NR then Ok(M.EOF) else Halt(AssertFailed)
        else r.Ok? && Took(f, Flat(Maps()), r.value - first + 1)
    {
      ghost var f := Flat(Maps());
      assert Whole(Maps());
      FlatLength(Maps());
      hide Flat, Maps, FirstFit;
      var i := 0;
      while i < M.ZMAP_NR
        invariant i <= |zmaps| && Flat(Maps()) == f && Full(f, i * 8192)
      {
        if i >= |zmaps| {
          NoneClear(f);
          return Halt(AssertFailed);
        }
        var bit := SearchBlock(i);
        if bit != -1 {
          return Ok(bit);
        }
        i := i + 1;
      }
      NoneClear(f);
      return Ok(M.EOF);
    }

    method Balloc() returns (r: Result<int>)
      requires Valid()
      modifies set m | m in zmaps :: m.bits
      ensures r.Halt? ==> M.Balloc(old(View())) == Halt(r.why)
      ensures r.Ok? ==> M.Balloc(old(View())) == Ok((View(), r.value))
    {
      assert Whole(Maps());
      FlatLength(Maps());
      ghost var v := View();
      hide Flat, FirstFit;
      r := Search();
      if r.Ok? && r.value != M.EOF && r.value >= zones {
        return Halt(AssertFailed);
      }
    }

    // array[index] = balloc(dev): an idx_t is stored in 16 bits.
    method Allocate(node: M.Node, index: nat) returns (r: Result<()>)
      requires Valid() && index < M.Width(node)
      modifies this`blocks, zone, set m | m in zmaps :: m.bits
      ensures r.Halt? ==> M.Allocate(old(View()), node, index) == Halt(r.why)
      ensures r.Ok? ==> M.Allocate(old(View()), node, index) == Ok(View())
    {
      var z := Balloc();
      if z.Halt? {
        return Halt(z.why);
      }
      Store(node, index, z.value % 0x1_0000);
      return Ok(());
    }

    method Store(node: M.Node, index: nat, z: nat)
      requires Valid() && index < M.Width(node)
      modifies this`blocks, zone
      ensures View() == M.Put(old(View()), node, index, z)
    {
      if node.Root? {
        zone[index] := z;
      } else {
        var words := if node.z in blocks && |blocks[node.z]| == M.BLOCK_INDEXES then blocks[node.z] else M.Zeros();
        blocks := blocks[node.z := words[index := z]];
      }
    }

    method Load(node: M.Node, index: nat) returns (z: nat)
      requires Valid() && index < M.Width(node)
      ensures z == M.Get(View(), node, index)
    {
      if node.Root? {
        z := zone[index];
      } else {
        z := if node.z in blocks && |blocks[node.z]| == M.BLOCK_INDEXES then blocks[node.z][index] else 0;
      }
    }

    // What the reference counts of the buffers see of bread and brelse.
    method Pin(z: nat)
      modifies this`pins
      ensures View() == old(View()).(pins := old(View()).pins + multiset{z})
    {
      pins := pins + multiset{z};
    }

    method Unpin(z: nat) returns (ok: bool)
      modifies this`pins
      ensures ok <==> z in old(View()).pins
      ensures ok ==> View() == old(View()).(pins := old(View()).pins - multiset{z})
    {
      ok := z in pins;
      if ok {
        pins := pins - multiset{z};
      }
    }

    method FillSlot(node: M.Node, index: nat, create: bool) returns (r: Result<()>)
      requires Valid() && index < M.Width(node)
      modifies this, zone, set m | m in zmaps :: m.bits
      ensures M.Sized(old(View())) && M.Sized(View()) && View().home == home
      ensures r.Halt? ==> M.Visit(old(View()), node, index, create) == Halt(r.why)
      ensures r.Ok? ==> FilledFrom(old(View()), View(), node, index, create)
    {
      ghost var v := View();
      assert M.Sized(v);
      hide M.Visit, M.Allocate, M.Get, Flat;
      var z := Load(node, index);
      if z == 0 && create {
        r := Allocate(node, index);
        if r.Halt? {
          VisitStops(v, node, index);
        }
        return;
      }
      return Ok(());
    }

    // The first half of a round of the loop.
    method Visit(node: M.Node, index: nat, create: bool) returns (r: Result<nat>)
      requires Valid() && index < M.Width(node)
      modifies this, zone, set m | m in zmaps :: m.bits
      ensures r.Halt? ==> M.Visit(old(View()), node, index, create) == Halt(r.why)
      ensures r.Ok? ==> Visited(old(View()), node, index, create, View(), r.value)
    {
      hide View, M.Visit, Visited, FilledFrom;
      ghost var v := View();
      var filled := FillSlot(node, index, create);
      if filled.Halt? {
        return Halt(filled.why);
      }
      ghost var w := View();
      var ok := Unpin(if node.Root? then home else node.z);
      if !ok {
        VisitUnpinned(v, w, node, index, create);
        return Halt(AssertFailed);
      }
      var z := Load(node, index);
      VisitDone(v, w, node, index, create);
      return Ok(z);
    }

    // The loop at the label `reckon`, which has to end as r0.
    method Reckon(node0: M.Node, index0: nat, level0: nat, block0: nat, divider0: nat, create: bool,
                  ghost r0: Result<(M.Volume, nat)>) returns (r: Result<nat>)
      requires Valid() && Going(View(), node0, index0, level0, block0, divider0, create, r0)
      modifies this, zone, set m | m in zmaps :: m.bits
      ensures r.Halt? ==> r0 == Halt(r.why)
      ensures r.Ok? ==> r0 == Ok((View(), r.value))
    {
      hide *;
      var node: M.Node, index: nat, level: nat, block: nat, divider: nat := node0, index0, level0, block0, divider0;
      while true
        invariant Going(View(), node, index, level, block, divider, create, r0)
        decreases level
      {
        ghost var v := View();
        if index >= M.Width(node) {
          GoingWrong(v, node, index, level, block, divider, create, r0);
          return Halt(Undefined);
        }
        GoingSized(v, node, index, level, block, divider, create, r0);
        var visited := Visit(node, index, create);
        if visited.Halt? {
          GoingHalts(v, node, index, level, block, divider, create, r0);
          return Halt(visited.why);
        }
        var z := visited.value;
        GoingOn(v, View(), z, node, index, level, block, divider, create, r0);
        if level == 0 || z == 0 {
          return Ok(z);
        }
        if divider == 0 {
          return Halt(Undefined);
        }
        Pin(z);
        node, index, block, divider, level := M.Index(z), block / divider, block % divider, divider / 512, level - 1;
      }
    }

    method Bmap(block: nat, create: bool) returns (r: Result<nat>)
      requires Valid()
      modifies this, zone, set m | m in zmaps :: m.bits
      ensures r.Halt? ==> M.Bmap(old(View()), block, create) == Halt(r.why)
      ensures r.Ok? ==> M.Bmap(old(View()), block, create) == Ok((View(), r.value))
    {
      ghost var v := View();
      assert M.Sized(v) && v.home == home;
      hide View, M.Bmap, Going, M.Sized;
      if block >= M.TOTAL_BLOCK {
        TooLarge(v, block, create);
        return Halt(AssertFailed);
      }
      ghost var r0 := M.Bmap(v, block, create);
      Pin(home);
      assert View() == M.Hold(v, M.Root);
      hide M.Hold;
      if block < M.DIRECT_BLOCK {
        StartDirect(v, block, create);
        r := Reckon(M.Root, block, 0, block, 1, create, r0);
        return;
      }
      var below := block - M.DIRECT_BLOCK;
      if below < M.INDIRECT1_BLOCK {
        StartSingle(v, below, create);
        r := Reckon(M.Root, M.DIRECT_BLOCK, 1, below, 1, create, r0);
        return;
      }
      below := below - M.INDIRECT1_BLOCK;
      StartDouble(v, below, create);
      r := Reckon(M.Root, M.DIRECT_BLOCK + 1, 2, below, M.BLOCK_INDEXES, create, r0);
    }
  }

  lemma StartDirect(v: M.Volume, block: nat, create: bool)
    requires M.Sized(v) && block < M.DIRECT_BLOCK
    ensures Going(M.Hold(v, M.Root), M.Root, block, 0, block, 1, create, M.Bmap(v, block, create))
  {
    hide M.Walk;
  }

  lemma StartSingle(v: M.Volume, b: nat, create: bool)
    requires M.Sized(v) && b < M.INDIRECT1_BLOCK
    ensures Going(M.Hold(v, M.Root), M.Root, M.DIRECT_BLOCK, 1, b, 1, create, M.Bmap(v, M.DIRECT_BLOCK + b, create))
  {
    hide M.Walk;
  }

  lemma StartDouble(v: M.Volume, b: nat, create: bool)
    requires M.Sized(v) && b < M.INDIRECT2_BLOCK
    ensures Going(M.Hold(v, M.Root), M.Root, M.DIRECT_BLOCK + 1, 2, b, M.BLOCK_INDEXES, create,
                  M.Bmap(v, M.DIRECT_BLOCK + M.INDIRECT1_BLOCK + b, create))
  {
    hide M.Walk;
  }

  lemma GoingSized(v: M.Volume, node: M.Node, index: nat, level: nat, block: nat, divider: nat, create: bool, r: Result<(M.Volume, nat)>)
    requires Going(v, node, index, level, block, divider, create, r)
    ensures M.Sized(v)
  {
  }

  // The loop, from the state it is in, ends as r.
  ghost predicate Going(v: M.Volume, node: M.Node, index: nat, level: nat, block: nat, divider: nat, create: bool,
                        r: Result<(M.Volume, nat)>) {
    M.Sized(v) && M.Walk(v, node, index, level, block, divider, create) == r
  }

  ghost predicate Visited(v: M.Volume, node: M.Node, index: nat, create: bool, w: M.Volume, z: nat) {
    M.Sized(v) && index < M.Width(node) && M.Visit(v, node, index, create) == Ok((w, z))
  }

  lemma GoingWrong(v: M.Volume, node: M.Node, index: nat, level: nat, block: nat, divider: nat, create: bool, r: Result<(M.Volume, nat)>)
    requires Going(v, node, index, level, block, divider, create, r) && index >= M.Width(node)
    ensures r == Halt(Undefined)
  {
  }

  lemma GoingHalts(v: M.Volume, node: M.Node, index: nat, level: nat, block: nat, divider: nat, create: bool, r: Result<(M.Volume, nat)>)
    requires M.Sized(v) && index < M.Width(node) && M.Visit(v, node, index, create).Halt?
    requires Going(v, node, index, level, block, divider, create, r)
    ensures r == Halt(M.Visit(v, node, index, create).why)
  {
  }

  lemma GoingOn(v: M.Volume, w: M.Volume, z: nat, node: M.Node, index: nat, level: nat, block: nat, divider: nat, create: bool,
                r: Result<(M.Volume, nat)>)
    requires Visited(v, node, index, create, w, z) && Going(v, node, index, level, block, divider, create, r)
    ensures level == 0 || z == 0 ==> r == Ok((w, z))
    ensures level > 0 && z != 0 && divider == 0 ==> r == Halt(Undefined)
    ensures level > 0 && z != 0 && divider > 0 ==>
      Going(w.(pins := w.pins + multiset{z}), M.Index(z), block / divider, level - 1, block % divider, divider / 512, create, r)
  {
    hide M.Visit;
  }
}
