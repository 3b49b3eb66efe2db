/**
 src/fs/bmap.cpp: finding a block of a file through the index tree of its inode, with
 allocation on the way.  A volume is what the block cache stands for: the contents of
 blocks, and how often each is held.
 */
module BlockMap {
  import opened Outcome
  import opened Bitmap

  const BLOCK_BITS := 8192
  const BLOCK_INDEXES := 512
  const ZMAP_NR := 8
  const DIRECT_BLOCK := 7
  const INDIRECT1_BLOCK := BLOCK_INDEXES
  const INDIRECT2_BLOCK := 262144 // 512 * 512
  const TOTAL_BLOCK := DIRECT_BLOCK + INDIRECT1_BLOCK + INDIRECT2_BLOCK
  const EOF := -1

  // `zone` are the nine zone numbers of the inode, `home` is the block they are in.
  // `blocks` gives the 16-bit words of each block; one that is missing reads as zeros.
  // `zmap` are the bits of the zone bitmap blocks one after the other: bit k stands for
  // zone k + first - 1.  `pins` has each block as often as it is held.
  datatype Volume = Volume(zone: seq<nat>, home: nat, blocks: map<nat, seq<nat>>, zmap: seq<bool>,
                           first: nat, zones: nat, pins: multiset<nat>)

  // The array of zone numbers that is being looked at.
  datatype Node = Root | Index(z: nat)

  function Zeros(): (w: seq<nat>)
    ensures |w| == BLOCK_INDEXES && forall i :: 0 <= i < BLOCK_INDEXES ==> w[i] == 0
  {
    seq(BLOCK_INDEXES, _ => 0)
  }

  function Words(v: Volume, z: nat): (w: seq<nat>)
    ensures |w| == BLOCK_INDEXES
  {
    if z in v.blocks && |v.blocks[z]| == BLOCK_INDEXES then v.blocks[z] else Zeros()
  }

  function Width(node: Node): nat {
    if node.Root? then DIRECT_BLOCK + 2 else BLOCK_INDEXES
  }

  predicate Sized(v: Volume) {
    |v.zone| == DIRECT_BLOCK + 2 && v.first > 0 && v.zones < 0x1_0000
  }

  function Get(v: Volume, node: Node, i: nat): nat
    requires Sized(v) && i < Width(node)
  {
    if node.Root? then v.zone[i] else Words(v, node.z)[i]
  }

  function Put(v: Volume, node: Node, i: nat, z: nat): Volume
    requires Sized(v) && i < Width(node)
  {
    if node.Root? then v.(zone := v.zone[i := z]) else v.(blocks := v.blocks[node.z := Words(v, node.z)[i := z]])
  }

  function BlockOf(v: Volume, node: Node): nat {
    if node.Root? then v.home else node.z
  }

  // ---------- the operations ----------

  // The first clear bit of the bitmap is taken.  A full bitmap of eight blocks gives
  // EOF; a full one of fewer blocks runs into a null pointer that is asserted against.
  function Balloc(v: Volume): Result<(Volume, int)>
    requires Sized(v)
  {
    var s := FirstFit(v.zmap, 1, 0);
    if s == -1 then if |v.zmap| >= 65536 then Ok((v, EOF)) else Halt(AssertFailed)
    else if s + v.first - 1 >= v.zones then Halt(AssertFailed)
    else Ok((v.(zmap := v.zmap[s := true]), s + v.first - 1))
  }

  // The zone that bit k of the bitmap stands for is free.
  predicate FreeBit(v: Volume, k: nat) {
    k < |v.zmap| && !v.zmap[k]
  }

  // balloc takes the free zone with the lowest number and marks no other.  Without one it
  // answers EOF if there are eight bitmap blocks; it stops the kernel if there are fewer,
  // or if that zone is not one of the volume's.
  lemma BallocTakesLowest(v: Volume)
    requires Sized(v)
    ensures Balloc(v).Halt? <==>
      if forall k: nat :: !FreeBit(v, k) then |v.zmap| < 8 * 8192
      else exists k: nat :: FreeBit(v, k) && (forall j: nat :: j < k ==> !FreeBit(v, j)) && k + v.first - 1 >= v.zones
    ensures Balloc(v).Ok? ==> var (w, z) := Balloc(v).value;
      if forall k: nat :: !FreeBit(v, k) then w == v && z == EOF
      else
        && v.first <= z + 1 && z < v.zones && w == v.(zmap := w.zmap) && |w.zmap| == |v.zmap|
        && FreeBit(v, z + 1 - v.first) && (forall j: nat :: FreeBit(v, j) ==> z + 1 - v.first <= j)
        && forall j: nat :: FreeBit(w, j) <==> FreeBit(v, j) && j != z + 1 - v.first
  {
    var s := FirstFit(v.zmap, 1, 0);
    assert IsFirstFit(v.zmap, 1, s);
    forall k: nat ensures FreeBit(v, k) <==> IsClear(v.zmap, k, 1) {
    }
    hide FirstFit, IsClear;
    if s == -1 {
      assert forall k: nat :: FreeBit(v, k) ==> k < |v.zmap|;
    } else {
      assert FreeBit(v, s);
    }
  }

  // array[index] = balloc(dev): an idx_t is stored in 16 bits.
  function Allocate(v: Volume, node: Node, i: nat): (r: Result<Volume>)
    requires Sized(v) && i < Width(node)
    ensures r.Ok? ==> Sized(r.value)
  {
    var (v1, z) :- Balloc(v);
    Ok(Put(v1, node, i, z % 0x1_0000))
  }

  // The first half of a round of the loop: an empty slot is filled if it should be, the
  // buffer is released, and the slot is read.
  function Visit(v: Volume, node: Node, index: nat, create: bool): (r: Result<(Volume, nat)>)
    requires Sized(v) && index < Width(node)
    ensures r.Ok? ==> Sized(r.value.0)
  {
    var v1 :- if Get(v, node, index) == 0 && create then Allocate(v, node, index) else Ok(v);
    if BlockOf(v1, node) !in v1.pins then Halt(AssertFailed)
    else Ok((v1.(pins := v1.pins - multiset{BlockOf(v1, node)}), Get(v1, node, index)))
  }

  function Quot(a: nat, b: nat): nat
    requires b > 0
  {
    a / b
  }

  function Rem(a: nat, b: nat): nat
    requires b > 0
  {
    a % b
  }

  // The rounds of the loop from `level` down; `node` is held.
  function Walk(v: Volume, node: Node, index: nat, level: nat, block: nat, divider: nat, create: bool): Result<(Volume, nat)>
    requires Sized(v)
    decreases level
  {
    if index >= Width(node) then Halt(Undefined)
    else
      var (v1, z) :- Visit(v, node, index, create);
      if level == 0 || z == 0 then Ok((v1, z))
      else if divider == 0 then Halt(Undefined)
      else Walk(v1.(pins := v1.pins + multiset{z}), Index(z), Quot(block, divider), level - 1, Rem(block, divider), Quot(divider, BLOCK_INDEXES), create)
  }

  function Bmap(v: Volume, block: nat, create: bool): Result<(Volume, nat)>
    requires Sized(v)
  {
    var v1 := v.(pins := v.pins + multiset{v.home});
    if block >= TOTAL_BLOCK then Halt(AssertFailed)
    else if block < DIRECT_BLOCK then Walk(v1, Root, block, 0, block, 1, create)
    else if block - DIRECT_BLOCK < INDIRECT1_BLOCK then Walk(v1, Root, DIRECT_BLOCK, 1, block - DIRECT_BLOCK, 1, create)
    else Walk(v1, Root, DIRECT_BLOCK + 1, 2, block - DIRECT_BLOCK - INDIRECT1_BLOCK, BLOCK_INDEXES, create)
  }

  // ---------- the index tree, by paths ----------

  // A path names a slot of the tree: first one of the nine zones, then entries of index
  // blocks.  Zone 7 has one level of index blocks below it, zone 8 two.
  type Path = seq<nat>

  predicate Slot(p: Path) {
    || (|p| == 1 && p[0] < DIRECT_BLOCK + 2)
    || (|p| == 2 && DIRECT_BLOCK <= p[0] < DIRECT_BLOCK + 2 && p[1] < BLOCK_INDEXES)
    || (|p| == 3 && p[0] == DIRECT_BLOCK + 1 && p[1] < BLOCK_INDEXES && p[2] < BLOCK_INDEXES)
  }

  // The slot of a block of the file.
  function PathOf(block: nat): (p: Path)
    requires block < TOTAL_BLOCK
    ensures Slot(p)
  {
    if block < DIRECT_BLOCK then [block]
    else if block - DIRECT_BLOCK < INDIRECT1_BLOCK then [DIRECT_BLOCK, block - DIRECT_BLOCK]
    else
      var b := block - DIRECT_BLOCK - INDIRECT1_BLOCK;
      [DIRECT_BLOCK + 1, b / 512, b % 512]
  }

  predicate Single(p: Path, b: nat) {
    |p| == 2 && p[0] == DIRECT_BLOCK && p[1] == b
  }

  predicate Double(p: Path, b: nat) {
    |p| == 3 && p[0] == DIRECT_BLOCK + 1 && p[1] == b / 512 && p[2] == b % 512
  }

  // The zone number in a slot; 0 if the slot is not there.
  function Val(v: Volume, p: Path): nat
    requires Sized(v) && Slot(p)
    decreases |p|
  {
    if |p| == 1 then v.zone[p[0]]
    else
      var up := Val(v, p[..|p| - 1]);
      if up == 0 then 0 else Words(v, up)[p[|p| - 1]]
  }

  function MapOf(v: Volume, block: nat): nat
    requires Sized(v) && block < TOTAL_BLOCK
  {
    Val(v, PathOf(block))
  }

  // Two blocks never share a slot, and every slot that is not an index slot has one.
  lemma PathsAreInjective(a: nat, b: nat)
    requires a < TOTAL_BLOCK && b < TOTAL_BLOCK && PathOf(a) == PathOf(b)
    ensures a == b
  {
  }

  // A slot for a block of the file; the others are for index blocks.
  predicate Leaf(p: Path) {
    Slot(p) && if p[0] < DIRECT_BLOCK then |p| == 1 else |p| == p[0] - DIRECT_BLOCK + 2
  }

  lemma PathsCoverLeaves(p: Path)
    requires Leaf(p)
    ensures exists block :: 0 <= block < TOTAL_BLOCK && PathOf(block) == p
  {
    var block := if |p| == 1 then p[0] else if |p| == 2 then DIRECT_BLOCK + p[1]
                 else DIRECT_BLOCK + INDIRECT1_BLOCK + p[1] * 512 + p[2];
    assert PathOf(block) == p;
  }

  // ---------- the walk is the path ----------

  function Hold(v: Volume, node: Node): (r: Volume)
    requires Sized(v)
    ensures Sized(r)
  {
    v.(pins := v.pins + multiset{BlockOf(v, node)})
  }

  lemma VisitFinds(v: Volume, node: Node, index: nat, create: bool)
    requires Sized(v) && index < Width(node) && (Get(v, node, index) != 0 || !create)
    ensures Visit(Hold(v, node), node, index, create) == Ok((v, Get(v, node, index)))
  {
    var h := Hold(v, node);
    assert h.(pins := h.pins - multiset{BlockOf(h, node)}) == v;
  }

  // One round of the loop.
  lemma Round(v: Volume, w: Volume, node: Node, index: nat, level: nat, block: nat, divider: nat, create: bool)
    requires Sized(v) && Sized(w) && index < Width(node) && (level > 0 ==> divider > 0)
    requires Visit(Hold(v, node), node, index, create) == Ok((w, Get(w, node, index)))
    ensures var z := Get(w, node, index);
      Walk(Hold(v, node), node, index, level, block, divider, create) ==
        if level == 0 || z == 0 then Ok((w, z))
        else Walk(Hold(w, Index(z)), Index(z), Quot(block, divider), level - 1, Rem(block, divider), Quot(divider, BLOCK_INDEXES), create)
  {
    hide Visit, Get;
  }

  lemma RoundFinds(v: Volume, node: Node, index: nat, level: nat, block: nat, divider: nat, create: bool)
    requires Sized(v) && index < Width(node) && (level > 0 ==> divider > 0)
    requires Get(v, node, index) != 0 || !create
    ensures var z := Get(v, node, index);
      Walk(Hold(v, node), node, index, level, block, divider, create) ==
        if level == 0 || z == 0 then Ok((v, z))
        else Walk(Hold(v, Index(z)), Index(z), Quot(block, divider), level - 1, Rem(block, divider), Quot(divider, BLOCK_INDEXES), create)
  {
    hide Visit, Get, Walk;
    VisitFinds(v, node, index, create);
    Round(v, v, node, index, level, block, divider, create);
  }

  // Looking a block up never fails, never divides by zero, changes nothing, and gives
  // back every buffer it took, whatever is in the tree.
  lemma LookupFollowsPath(v: Volume, block: nat)
    requires Sized(v)
    ensures Bmap(v, block, false) == if block < TOTAL_BLOCK then Ok((v, MapOf(v, block))) else Halt(AssertFailed)
  {
    hide Walk, Get;
    if block < DIRECT_BLOCK {
      RoundFinds(v, Root, block, 0, block, 1, false);
      GetRoot(v, block);
    } else if block < DIRECT_BLOCK + INDIRECT1_BLOCK {
      WalkOne(v, block - DIRECT_BLOCK);
    } else if block < TOTAL_BLOCK {
      WalkTwo(v, block - DIRECT_BLOCK - INDIRECT1_BLOCK);
    }
  }

  lemma GetRoot(v: Volume, i: nat)
    requires Sized(v) && i < DIRECT_BLOCK + 2
    ensures Get(v, Root, i) == Val(v, [i])
  {
  }

  lemma GetIndex(v: Volume, p: Path)
    requires Sized(v) && Slot(p) && |p| > 1 && Val(v, p[..|p| - 1]) != 0
    ensures Get(v, Index(Val(v, p[..|p| - 1])), p[|p| - 1]) == Val(v, p)
  {
  }

  lemma WalkOne(v: Volume, b: nat)
    requires Sized(v) && b < INDIRECT1_BLOCK
    ensures Walk(Hold(v, Root), Root, DIRECT_BLOCK, 1, b, 1, false) == Ok((v, Val(v, [DIRECT_BLOCK, b])))
  {
    hide Walk, Get;
    var p: Path := [DIRECT_BLOCK, b];
    assert p[..1] == [DIRECT_BLOCK];
    GetRoot(v, DIRECT_BLOCK);
    RoundFinds(v, Root, DIRECT_BLOCK, 1, b, 1, false);
    var z := Val(v, [DIRECT_BLOCK]);
    if z != 0 {
      GetIndex(v, p);
      RoundFinds(v, Index(z), b, 0, 0, 0, false);
    }
  }

  lemma WalkTwo(v: Volume, b: nat)
    requires Sized(v) && b < INDIRECT2_BLOCK
    ensures Walk(Hold(v, Root), Root, DIRECT_BLOCK + 1, 2, b, BLOCK_INDEXES, false) ==
      Ok((v, Val(v, [DIRECT_BLOCK + 1, b / 512, b % 512])))
  {
    hide Walk, Get;
    var i, j := b / 512, b % 512;
    var p: Path := [DIRECT_BLOCK + 1, i, j];
    assert p[..2][..1] == [DIRECT_BLOCK + 1] && p[..2] == [DIRECT_BLOCK + 1, i];
    GetRoot(v, DIRECT_BLOCK + 1);
    RoundFinds(v, Root, DIRECT_BLOCK + 1, 2, b, BLOCK_INDEXES, false);
    var z := Val(v, [DIRECT_BLOCK + 1]);
    if z != 0 {
      GetIndex(v, p[..2]);
      RoundFinds(v, Index(z), i, 1, j, 1, false);
      var y := Val(v, p[..2]);
      if y != 0 {
        GetIndex(v, p);
        RoundFinds(v, Index(y), j, 0, 0, 0, false);
      }
    }
  }

  // ---------- allocation, by paths ----------

  predicate IsPrefix(q: Path, p: Path) {
    |q| <= |p| && q == p[..|q|]
  }

  // The array a slot is in; its parent must be there.
  function NodeOf(v: Volume, p: Path): Node
    requires Sized(v) && Slot(p)
  {
    if |p| == 1 then Root else Index(Val(v, p[..|p| - 1]))
  }

  predicate Reached(v: Volume, p: Path) {
    Sized(v) && Slot(p) && (|p| > 1 ==> Val(v, p[..|p| - 1]) != 0)
  }

  function Ensure(v: Volume, p: Path): (r: Result<Volume>)
    requires Reached(v, p)
    ensures r.Ok? ==> Sized(r.value)
  {
    if Val(v, p) != 0 then Ok(v) else Allocate(v, NodeOf(v, p), p[|p| - 1])
  }

  // The slots on the way to p are filled from the top, as far as there is something in them.
  function Grow(v: Volume, p: Path): (r: Result<Volume>)
    requires Sized(v) && Slot(p)
    ensures r.Ok? ==> Sized(r.value)
    decreases |p|
  {
    if |p| == 1 then Ensure(v, p)
    else
      var v1 :- Grow(v, p[..|p| - 1]);
      if Val(v1, p[..|p| - 1]) == 0 then Ok(v1) else Ensure(v1, p)
  }

  lemma AllocateHeld(v: Volume, node: Node, i: nat)
    requires Sized(v) && i < Width(node)
    ensures Allocate(Hold(v, node), node, i) ==
      if Allocate(v, node, i).Halt? then Allocate(v, node, i) else Ok(Hold(Allocate(v, node, i).value, node))
  {
    hide FirstFit;
  }

  lemma AllocateFrame(v: Volume, node: Node, i: nat)
    requires Sized(v) && i < Width(node)
    ensures Get(Hold(v, node), node, i) == Get(v, node, i)
    ensures Allocate(v, node, i).Ok? ==> Allocate(v, node, i).value.home == v.home
  {
    hide FirstFit;
  }

  lemma VisitFills(v: Volume, node: Node, i: nat)
    requires Sized(v) && i < Width(node) && Get(v, node, i) == 0
    ensures var r := Visit(Hold(v, node), node, i, true);
      && (Allocate(v, node, i).Halt? ==> r == Halt(Allocate(v, node, i).why))
      && (Allocate(v, node, i).Ok? ==> r == Ok((Allocate(v, node, i).value, Get(Allocate(v, node, i).value, node, i))))
  {
    AllocateHeld(v, node, i);
    AllocateFrame(v, node, i);
    hide Allocate;
    if Allocate(v, node, i).Ok? {
      var w := Allocate(v, node, i).value;
      var g := Hold(w, node);
      assert g.(pins := g.pins - multiset{BlockOf(g, node)}) == w;
      assert Get(g, node, i) == Get(w, node, i);
      hide Get;
      assert BlockOf(g, node) in g.pins;
    }
  }

  lemma VisitEnsures(v: Volume, p: Path)
    requires Reached(v, p)
    ensures var r := Visit(Hold(v, NodeOf(v, p)), NodeOf(v, p), p[|p| - 1], true);
      && (Ensure(v, p).Halt? ==> r == Halt(Ensure(v, p).why))
      && (Ensure(v, p).Ok? ==> r == Ok((Ensure(v, p).value, Get(Ensure(v, p).value, NodeOf(v, p), p[|p| - 1]))))
  {
    hide Visit, Allocate;
    var node, i := NodeOf(v, p), p[|p| - 1];
    if |p| == 1 {
      GetRoot(v, i);
      assert p == [i];
    } else {
      GetIndex(v, p);
    }
    if Val(v, p) != 0 {
      VisitFinds(v, node, i, true);
    } else {
      VisitFills(v, node, i);
    }
  }

  // ---------- the invariant ----------

  predicate Free(v: Volume, z: nat) {
    v.first - 1 <= z < v.first - 1 + |v.zmap| && !v.zmap[z - v.first + 1]
  }

  predicate Marked(v: Volume, z: nat) {
    v.first - 1 <= z < v.first - 1 + |v.zmap| && v.zmap[z - v.first + 1]
  }

  // What mkfs leaves: bit 0, which stands for no zone, and the bits past the last zone
  // are set.
  ghost predicate Layout(v: Volume) {
    && Sized(v) && |v.zmap| > 0 && v.zmap[0] && forall k :: 0 <= k < |v.zmap| && !v.zmap[k] ==> k + v.first - 1 < v.zones
  }

  ghost predicate AllMarked(v: Volume) {
    && Sized(v) && forall p: Path :: Slot(p) && Val(v, p) != 0 ==> Marked(v, Val(v, p))
  }

  ghost predicate Distinct(v: Volume) {
    && Sized(v) && forall p: Path, q: Path :: Slot(p) && Slot(q) && p != q && Val(v, p) != 0 ==> Val(v, p) != Val(v, q)
  }

  // Every zone of the tree is marked, and is in one slot only.
  ghost predicate Tree(v: Volume) {
    Layout(v) && AllMarked(v) && Distinct(v)
  }

  // Unmarked zones read as zeros.
  ghost predicate Blank(v: Volume) {
    forall z: nat :: Free(v, z) ==> Words(v, z) == Zeros()
  }

  // ---------- filling one slot ----------

  // Zone z goes into slot p.
  function Filled(v: Volume, p: Path, z: nat): (w: Volume)
    requires Sized(v) && Slot(p) && Free(v, z)
    ensures Sized(w)
  {
    Put(v.(zmap := v.zmap[z - v.first + 1 := true]), NodeOf(v, p), p[|p| - 1], z)
  }

  // An index block that is taken into use is not cleared, so it has to be clear.
  predicate Suits(v: Volume, p: Path, z: nat) {
    Leaf(p) || Words(v, z) == Zeros()
  }

  lemma FilledArrays(v: Volume, p: Path, z: nat)
    requires Sized(v) && Slot(p) && Free(v, z)
    ensures var w := Filled(v, p, z);
      && w.zone == (if |p| == 1 then v.zone[p[0] := z] else v.zone)
      && forall x :: Words(w, x) == if |p| > 1 && x == Val(v, p[..|p| - 1]) then Words(v, x)[p[|p| - 1] := z] else Words(v, x)
  {
    hide Val;
  }

  lemma FilledArray(v: Volume, p: Path, z: nat, x: nat)
    requires Sized(v) && Slot(p) && Free(v, z)
    ensures Words(Filled(v, p, z), x) == if |p| > 1 && x == Val(v, p[..|p| - 1]) then Words(v, x)[p[|p| - 1] := z] else Words(v, x)
  {
    FilledArrays(v, p, z);
  }

  lemma ValStep(v: Volume, q: Path)
    requires Sized(v) && Slot(q)
    ensures |q| == 1 ==> Val(v, q) == v.zone[q[0]]
    ensures |q| > 1 ==> var up := Val(v, q[..|q| - 1]); Val(v, q) == if up == 0 then 0 else Words(v, up)[q[|q| - 1]]
  {
  }

  lemma UpOnce(v: Volume, p: Path, q: Path)
    requires Distinct(v) && Slot(p) && Slot(q) && Val(v, p) != 0 && Val(v, p) == Val(v, q)
    ensures p == q
  {
  }

  ghost predicate MayFill(v: Volume, p: Path, z: nat) {
    Tree(v) && Reached(v, p) && Val(v, p) == 0 && Free(v, z) && Suits(v, p, z)
  }

  lemma FilledTop(v: Volume, p: Path, z: nat, q: Path)
    requires MayFill(v, p, z) && Slot(q) && |q| == 1
    ensures Val(Filled(v, p, z), q) == if q == p then z else Val(v, q)
  {
    FilledArrays(v, p, z);
    ValStep(v, q);
    ValStep(Filled(v, p, z), q);
    hide Filled, Val, Tree, Words;
    assert |p| == 1 ==> p == [p[0]];
    assert q == [q[0]];
  }

  lemma FilledChild(v: Volume, p: Path, z: nat, q: Path)
    requires MayFill(v, p, z) && Slot(q) && |q| > 1 && q[..|q| - 1] == p && Val(Filled(v, p, z), p) == z
    ensures Val(Filled(v, p, z), q) == Val(v, q)
  {
    ParentNotFresh(v, p, z);
    ValStep(v, q);
    ValStep(Filled(v, p, z), q);
    hide Filled, Val, Tree, Words;
    assert !Leaf(p);
  }

  lemma FilledBelow(v: Volume, p: Path, z: nat, q: Path)
    requires MayFill(v, p, z) && Slot(q) && |q| > 1 && q[..|q| - 1] != p
    requires Val(Filled(v, p, z), q[..|q| - 1]) == Val(v, q[..|q| - 1])
    ensures Val(Filled(v, p, z), q) == if q == p then z else Val(v, q)
  {
    var up, x := q[..|q| - 1], Val(v, q[..|q| - 1]);
    ValStep(v, q);
    ValStep(Filled(v, p, z), q);
    FilledArray(v, p, z, x);
    assert Distinct(v) && (|p| > 1 ==> Slot(p[..|p| - 1])) && Slot(up);
    hide *;
    if x != 0 && |p| > 1 && x == Val(v, p[..|p| - 1]) {
      UpOnce(v, up, p[..|p| - 1]);
      SameUp(p, q);
    }
  }

  // Two slots of one array are the same if the positions are.
  lemma SameUp(p: Path, q: Path)
    requires |p| > 1 && |q| > 1 && p[..|p| - 1] == q[..|q| - 1]
    ensures p == q <==> p[|p| - 1] == q[|q| - 1]
  {
    assert p == p[..|p| - 1] + [p[|p| - 1]] && q == q[..|q| - 1] + [q[|q| - 1]];
  }

  lemma FilledVal(v: Volume, p: Path, z: nat, q: Path)
    requires Tree(v) && Reached(v, p) && Val(v, p) == 0 && Free(v, z) && Suits(v, p, z) && Slot(q)
    ensures Val(Filled(v, p, z), q) == if q == p then z else Val(v, q)
    decreases |q|
  {
    assert MayFill(v, p, z);
    hide MayFill, Filled, Val, Tree, Suits;
    if |q| == 1 {
      FilledTop(v, p, z, q);
    } else {
      FilledVal(v, p, z, q[..|q| - 1]);
      if q[..|q| - 1] == p {
        FilledChild(v, p, z, q);
      } else {
        FilledBelow(v, p, z, q);
      }
    }
  }

  // The array that was written is not the new zone.
  lemma ParentNotFresh(v: Volume, p: Path, z: nat)
    requires Tree(v) && Reached(v, p) && Free(v, z)
    ensures Words(Filled(v, p, z), z) == Words(v, z)
  {
    if |p| > 1 {
      assert Marked(v, Val(v, p[..|p| - 1]));
    }
  }

  lemma FilledTreePositive(v: Volume, z: nat)
    requires Layout(v) && Free(v, z)
    ensures z > 0
  {
  }

  lemma FilledMarked(v: Volume, p: Path, z: nat)
    requires Tree(v) && Reached(v, p) && Val(v, p) == 0 && Free(v, z) && Suits(v, p, z)
    ensures Layout(Filled(v, p, z)) && AllMarked(Filled(v, p, z))
  {
    var w := Filled(v, p, z);
    assert Layout(w) by {
      hide Val, Words;
    }
    hide Val, Words, Filled, Layout, Distinct;
    forall q: Path | Slot(q) && Val(w, q) != 0 ensures Marked(w, Val(w, q)) {
      FilledVal(v, p, z, q);
      FilledMarks(v, p, z, Val(w, q));
    }
  }

  lemma FilledDistinct(v: Volume, p: Path, z: nat)
    requires Tree(v) && Reached(v, p) && Val(v, p) == 0 && Free(v, z) && Suits(v, p, z)
    ensures Distinct(Filled(v, p, z))
  {
    hide Val, Words, Filled, Layout;
    var w := Filled(v, p, z);
    forall q: Path, r: Path | Slot(q) && Slot(r) && q != r && Val(w, q) != 0 ensures Val(w, q) != Val(w, r) {
      FilledVal(v, p, z, q);
      FilledVal(v, p, z, r);
      assert Val(v, q) != 0 ==> Marked(v, Val(v, q));
      assert Val(v, r) != 0 ==> Marked(v, Val(v, r));
    }
  }

  // ---------- growing the tree along a path ----------

  // The slots of p's prefixes may have been filled with zones that were free; those are
  // now marked, and nothing else is different.
  ghost predicate Grown(v: Volume, w: Volume, p: Path) {
    && Sized(v) && Sized(w) && SameFrame(v, w)
    && (forall q: Path :: Slot(q) ==> Val(w, q) == Val(v, q) || (IsPrefix(q, p) && Val(v, q) == 0 && Free(v, Val(w, q)) && Marked(w, Val(w, q))))
    && (forall z: nat :: Marked(w, z) && !Marked(v, z) ==> z != 0 && exists q: Path :: Slot(q) && IsPrefix(q, p) && Val(v, q) == 0 && Val(w, q) == z)
    && (forall z: nat :: Marked(v, z) ==> Marked(w, z))
    && (forall x: nat :: Marked(v, x) && !OnPath(w, x, p) ==> Words(w, x) == Words(v, x))
    && (Blank(v) ==> Blank(w))
  }

  // Block x is one of the index blocks on the way to p.
  ghost predicate OnPath(v: Volume, x: nat, p: Path)
    requires Sized(v)
  {
    x != 0 && exists q: Path :: Slot(q) && IsPrefix(q, p) && q != p && Val(v, q) == x
  }

  ghost predicate SameFrame(v: Volume, w: Volume) {
    w.home == v.home && w.first == v.first && w.zones == v.zones && w.pins == v.pins && |w.zmap| == |v.zmap|
  }

  lemma FilledWords(v: Volume, p: Path, z: nat)
    requires Tree(v) && Reached(v, p) && Val(v, p) == 0 && Free(v, z) && Suits(v, p, z)
    ensures var w := Filled(v, p, z);
      && (forall x: nat :: Marked(v, x) && !OnPath(w, x, p) ==> Words(w, x) == Words(v, x))
      && (Blank(v) ==> Blank(w))
  {
    hide Val;
    var w := Filled(v, p, z);
    if |p| > 1 {
      var up := p[..|p| - 1];
      FilledVal(v, p, z, up);
      assert IsPrefix(up, p) && OnPath(w, Val(v, up), p);
      assert Marked(v, Val(v, up));
    }
    forall x: nat | Free(w, x) ensures Free(v, x) && Words(w, x) == Words(v, x) {
    }
  }

  lemma FilledMarks(v: Volume, p: Path, z: nat, x: nat)
    requires Sized(v) && Slot(p) && Free(v, z)
    ensures Marked(Filled(v, p, z), x) <==> Marked(v, x) || x == z
  {
    hide Val, Words;
  }

  lemma FilledGrown(v: Volume, p: Path, z: nat)
    requires Tree(v) && Reached(v, p) && Val(v, p) == 0 && Free(v, z) && Suits(v, p, z)
    ensures Grown(v, Filled(v, p, z), p)
  {
    FilledWords(v, p, z);
    FilledTreePositive(v, z);
    var w := Filled(v, p, z);
    assert SameFrame(v, w) && Sized(v) && !Marked(v, z) && IsPrefix(p, p);
    forall x: nat ensures Marked(w, x) <==> Marked(v, x) || x == z {
      FilledMarks(v, p, z, x);
    }
    forall q: Path | Slot(q) ensures Val(w, q) == if q == p then z else Val(v, q) {
      FilledVal(v, p, z, q);
    }
    hide Words, Blank, OnPath, Val, Tree, Filled, Free, Marked, SameFrame, Slot, IsPrefix, Suits;
    assert Val(w, p) == z;
  }

  lemma PrefixUp(q: Path, p: Path)
    requires |p| > 1 && IsPrefix(q, p[..|p| - 1])
    ensures IsPrefix(q, p)
  {
    assert p[..|p| - 1][..|q|] == p[..|q|];
  }

  lemma OnPathLonger(v: Volume, w: Volume, x: nat, p: Path)
    requires |p| > 1 && Grown(v, w, p) && OnPath(v, x, p[..|p| - 1])
    ensures OnPath(w, x, p)
  {
    hide Val, Words;
    var q: Path :| Slot(q) && IsPrefix(q, p[..|p| - 1]) && q != p[..|p| - 1] && Val(v, q) == x;
    PrefixUp(q, p);
    assert Val(w, q) == x;
  }

  lemma GrownTwice(u: Volume, v: Volume, w: Volume, p: Path)
    requires |p| > 1 && Grown(u, v, p[..|p| - 1]) && Grown(v, w, p)
    ensures Grown(u, w, p)
  {
    forall x: nat | Marked(u, x) && !OnPath(w, x, p) ensures Words(w, x) == Words(u, x) {
      if OnPath(v, x, p[..|p| - 1]) {
        OnPathLonger(v, w, x, p);
      }
    }
    hide Val, Words, OnPath, Blank;
    forall q: Path | Slot(q) ensures Val(w, q) == Val(u, q) || (IsPrefix(q, p) && Val(u, q) == 0 && Free(u, Val(w, q)) && Marked(w, Val(w, q))) {
      if IsPrefix(q, p[..|p| - 1]) {
        PrefixUp(q, p);
      }
      assert Marked(u, Val(w, q)) ==> Marked(v, Val(w, q));
    }
    forall z: nat | Marked(w, z) && !Marked(u, z) ensures z != 0 && exists q: Path :: Slot(q) && IsPrefix(q, p) && Val(u, q) == 0 && Val(w, q) == z {
      if Marked(v, z) {
        var q: Path :| Slot(q) && IsPrefix(q, p[..|p| - 1]) && Val(u, q) == 0 && Val(v, q) == z;
        PrefixUp(q, p);
        assert Val(w, q) == z;
      } else {
        var q: Path :| Slot(q) && IsPrefix(q, p) && Val(v, q) == 0 && Val(w, q) == z;
        assert Val(u, q) == 0;
      }
    }
  }

  // ---------- counting what is free and what is missing ----------

  function ClearBits(f: seq<bool>): nat {
    if f == [] then 0 else ClearBits(f[..|f| - 1]) + if f[|f| - 1] then 0 else 1
  }

  lemma {:induction false} ClearUpdate(f: seq<bool>, k: nat)
    requires k < |f| && !f[k]
    ensures ClearBits(f[k := true]) == ClearBits(f) - 1
  {
    var n := |f| - 1;
    if k < n {
      ClearUpdate(f[..n], k);
      assert f[k := true][..n] == f[..n][k := true];
    } else {
      assert f[k := true][..n] == f[..n];
    }
  }

  lemma {:induction false} ClearNone(f: seq<bool>)
    ensures ClearBits(f) == 0 <==> forall k :: 0 <= k < |f| ==> f[k]
  {
    if f != [] {
      ClearNone(f[..|f| - 1]);
      assert forall k :: 0 <= k < |f| - 1 ==> f[..|f| - 1][k] == f[k];
    }
  }

  // How many zones a create of slot p has to allocate.
  function Missing(v: Volume, p: Path): nat
    requires Sized(v) && Slot(p)
    decreases |p|
  {
    (if |p| > 1 then Missing(v, p[..|p| - 1]) else 0) + if Val(v, p) == 0 then 1 else 0
  }

  lemma FirstFree(v: Volume)
    requires Layout(v)
    ensures var s := FirstFit(v.zmap, 1, 0);
      && (s == -1 <==> ClearBits(v.zmap) == 0)
      && (s != -1 ==> s + v.first - 1 > 0 && Free(v, s + v.first - 1) && s + v.first - 1 < v.zones && ClearBits(v.zmap[s := true]) == ClearBits(v.zmap) - 1)
  {
    var s := FirstFit(v.zmap, 1, 0);
    ClearNone(v.zmap);
    if s == -1 {
      forall k | 0 <= k < |v.zmap| ensures v.zmap[k] {
        assert !IsClear(v.zmap, k, 1);
      }
    } else {
      assert IsClear(v.zmap, s, 1);
      ClearUpdate(v.zmap, s);
    }
  }

  function NextFree(v: Volume): int {
    FirstFit(v.zmap, 1, 0) + v.first - 1
  }

  // The next n zones that balloc hands out read as zeros.
  ghost predicate TakesBlank(v: Volume, n: nat)
    requires Sized(v)
    decreases n
  {
    n == 0 || ClearBits(v.zmap) == 0 || (NextFree(v) >= 0 && Free(v, NextFree(v)) && Words(v, NextFree(v)) == Zeros()
      && TakesBlank(v.(zmap := v.zmap[NextFree(v) - v.first + 1 := true]), n - 1))
  }

  lemma {:induction false} TakesFewer(v: Volume, n: nat, m: nat)
    requires Sized(v) && m <= n && TakesBlank(v, n)
    ensures TakesBlank(v, m)
    decreases n
  {
    if m > 0 && ClearBits(v.zmap) > 0 {
      TakesFewer(v.(zmap := v.zmap[NextFree(v) - v.first + 1 := true]), n - 1, m - 1);
    }
  }

  // It is enough that all unmarked zones do.
  lemma {:induction false} BlankTakes(v: Volume, n: nat)
    requires Layout(v) && Blank(v)
    ensures TakesBlank(v, n)
    decreases n
  {
    if n > 0 && ClearBits(v.zmap) > 0 {
      FirstFree(v);
      var u := v.(zmap := v.zmap[NextFree(v) - v.first + 1 := true]);
      forall z: nat | Free(u, z) ensures Words(u, z) == Zeros() {
        assert Free(v, z);
      }
      BlankTakes(u, n - 1);
    }
  }

  // TakesBlank depends on the bitmap and on what is in unmarked zones.
  lemma {:induction false} TakesSame(v: Volume, w: Volume, n: nat)
    requires Sized(v) && Sized(w) && w.zmap == v.zmap && w.first == v.first && TakesBlank(v, n)
    requires forall z: nat :: Free(v, z) ==> Words(w, z) == Words(v, z)
    ensures TakesBlank(w, n)
    decreases n
  {
    if n > 0 && ClearBits(v.zmap) > 0 {
      var k := NextFree(v) - v.first + 1;
      var v', w' := v.(zmap := v.zmap[k := true]), w.(zmap := w.zmap[k := true]);
      forall z: nat | Free(v', z) ensures Words(w', z) == Words(v', z) {
        assert Free(v, z);
      }
      TakesSame(v', w', n - 1);
    }
  }

  predicate Ready(v: Volume, p: Path)
    requires Sized(v) && Slot(p)
  {
    Val(v, p) != 0 || ClearBits(v.zmap) == 0 || (NextFree(v) >= 0 && Suits(v, p, NextFree(v)))
  }

  // With a free zone at hand an empty slot is filled; without one the create stops, if
  // the bitmap has fewer than eight blocks.
  lemma EnsureIs(v: Volume, p: Path)
    requires Tree(v) && Reached(v, p)
    ensures Val(v, p) != 0 ==> Ensure(v, p) == Ok(v)
    ensures Val(v, p) == 0 && ClearBits(v.zmap) == 0 && |v.zmap| < 65536 ==> Ensure(v, p) == Halt(AssertFailed)
    ensures Val(v, p) == 0 && ClearBits(v.zmap) > 0 ==>
      var z := NextFree(v);
      && z > 0 && Free(v, z) && Ensure(v, p) == Ok(Filled(v, p, z))
      && ClearBits(Filled(v, p, z).zmap) == ClearBits(v.zmap) - 1
  {
    FirstFree(v);
    hide Val, Words, Distinct, AllMarked, FirstFit, ClearBits;
  }

  lemma FilledTakes(v: Volume, p: Path, n: nat)
    requires Tree(v) && Reached(v, p) && Val(v, p) == 0 && n > 0 && TakesBlank(v, n) && ClearBits(v.zmap) > 0
    requires NextFree(v) >= 0 && Free(v, NextFree(v))
    ensures TakesBlank(Filled(v, p, NextFree(v)), n - 1)
  {
    var w := Filled(v, p, NextFree(v));
    var u := v.(zmap := v.zmap[NextFree(v) - v.first + 1 := true]);
    FilledArrays(v, p, NextFree(v));
    assert |p| > 1 ==> Marked(v, Val(v, p[..|p| - 1]));
    assert w.zmap == u.zmap && w.first == u.first;
    assert TakesBlank(u, n - 1);
    hide Filled, Val, Words, Tree, NextFree, ClearBits, TakesBlank;
    forall z: nat | Free(u, z) ensures Words(w, z) == Words(u, z) {
      assert Free(v, z);
      SameArrays(v, u, z);
    }
    TakesSame(u, w, n - 1);
  }

  lemma SameArrays(v: Volume, u: Volume, z: nat)
    requires u.blocks == v.blocks
    ensures Words(u, z) == Words(v, z)
  {
  }

  ghost predicate Enough(v: Volume, p: Path)
    requires Sized(v) && Slot(p)
  {
    ClearBits(v.zmap) >= Missing(v, p)
  }

  // Everything a successful create of slot p leaves.
  ghost predicate Created(v: Volume, w: Volume, p: Path)
    requires Sized(v) && Slot(p)
  {
    && Tree(w) && Grown(v, w, p) && Val(w, p) != 0 && Enough(v, p)
    && ClearBits(w.zmap) == ClearBits(v.zmap) - Missing(v, p)
  }

  lemma NothingGrown(v: Volume, p: Path)
    requires Sized(v)
    ensures Grown(v, v, p)
  {
  }

  lemma EnsureCreates(v: Volume, p: Path)
    requires Tree(v) && Reached(v, p) && Ready(v, p)
    ensures var n := if Val(v, p) == 0 then 1 else 0;
      if ClearBits(v.zmap) >= n then
        && Ensure(v, p).Ok? && var w := Ensure(v, p).value;
        Tree(w) && Grown(v, w, p) && Val(w, p) != 0 && ClearBits(w.zmap) == ClearBits(v.zmap) - n
      else |v.zmap| < 65536 ==> Ensure(v, p) == Halt(AssertFailed)
  {
    EnsureIs(v, p);
    if Val(v, p) != 0 {
      NothingGrown(v, p);
    } else if ClearBits(v.zmap) > 0 {
      var z := NextFree(v);
      FilledMarked(v, p, z);
      FilledDistinct(v, p, z);
      FilledGrown(v, p, z);
      FilledVal(v, p, z, p);
    }
    hide Grown, Layout, AllMarked, Distinct, Ensure, Filled, Words, NextFree, ClearBits;
  }

  // How many index blocks a create of slot p allocates.
  function MissingIndex(v: Volume, p: Path): nat
    requires Sized(v) && Slot(p)
  {
    if Leaf(p) then (if |p| > 1 then Missing(v, p[..|p| - 1]) else 0) else Missing(v, p)
  }

  // The index blocks that a create of slot p takes into use read as zeros.
  ghost predicate Clean(v: Volume, p: Path)
    requires Sized(v) && Slot(p)
  {
    TakesBlank(v, MissingIndex(v, p))
  }

  lemma EnsureTakes(v: Volume, p: Path, n: nat)
    requires Tree(v) && Reached(v, p) && TakesBlank(v, n + if Val(v, p) == 0 then 1 else 0)
    requires Val(v, p) != 0 || ClearBits(v.zmap) > 0
    ensures Ready(v, p) && Ensure(v, p).Ok? && TakesBlank(Ensure(v, p).value, n)
  {
    EnsureIs(v, p);
    if Val(v, p) == 0 {
      FilledTakes(v, p, n + 1);
    }
    hide Filled;
  }

  lemma ReadyHere(v: Volume, p: Path)
    requires Layout(v) && Reached(v, p) && (Leaf(p) || Val(v, p) != 0 || TakesBlank(v, 1))
    ensures Ready(v, p)
  {
    FirstFree(v);
  }

  // Grow for a slot of an index block, when the next n zones after it are blank too.
  lemma {:induction false} GrowTakes(v: Volume, p: Path, n: nat)
    requires Tree(v) && Slot(p) && TakesBlank(v, Missing(v, p) + n)
    ensures Enough(v, p) ==> Grow(v, p).Ok? && Created(v, Grow(v, p).value, p) && TakesBlank(Grow(v, p).value, n)
    ensures !Enough(v, p) && |v.zmap| < 65536 ==> Grow(v, p) == Halt(AssertFailed)
    decreases |p|
  {
    if |p| == 1 {
      GrowTop(v, p, n);
    } else {
      GrowTakes(v, p[..|p| - 1], n + if Val(v, p) == 0 then 1 else 0);
      hide Val, Tree, ClearBits, TakesBlank, Created;
      if Enough(v, p[..|p| - 1]) {
        GrowStep(v, Grow(v, p[..|p| - 1]).value, p, n);
      }
    }
  }

  lemma GrowTop(v: Volume, p: Path, n: nat)
    requires Tree(v) && Slot(p) && |p| == 1 && TakesBlank(v, Missing(v, p) + n)
    ensures Enough(v, p) ==> Grow(v, p).Ok? && Created(v, Grow(v, p).value, p) && TakesBlank(Grow(v, p).value, n)
    ensures !Enough(v, p) && |v.zmap| < 65536 ==> Grow(v, p) == Halt(AssertFailed)
  {
    assert Sized(v) && Layout(v);
    hide Val, Layout, AllMarked, Distinct, Blank, Ensure, ClearBits, TakesBlank;
    if Val(v, p) == 0 {
      TakesFewer(v, n + 1, 1);
    }
    ReadyHere(v, p);
    EnsureCreates(v, p);
    if Enough(v, p) {
      EnsureTakes(v, p, n);
    }
  }

  lemma GrowStep(v: Volume, u: Volume, p: Path, n: nat)
    requires Sized(v) && Slot(p) && |p| > 1 && Grow(v, p[..|p| - 1]) == Ok(u) && Created(v, u, p[..|p| - 1])
    requires TakesBlank(u, n + if Val(v, p) == 0 then 1 else 0)
    ensures Enough(v, p) ==> Grow(v, p).Ok? && Created(v, Grow(v, p).value, p) && TakesBlank(Grow(v, p).value, n)
    ensures !Enough(v, p) && |v.zmap| < 65536 ==> Grow(v, p) == Halt(AssertFailed)
  {
    hide Val, Layout, AllMarked, Distinct, Blank, Ensure, ClearBits, TakesBlank;
    SameBelow(v, u, p[..|p| - 1], p);
    if Val(v, p) == 0 {
      TakesFewer(u, n + 1, 1);
    }
    ReadyHere(u, p);
    EnsureCreates(u, p);
    if Enough(v, p) {
      EnsureTakes(u, p, n);
      GrownTwice(v, u, Ensure(u, p).value, p);
    }
  }

  lemma SameBelow(v: Volume, u: Volume, up: Path, p: Path)
    requires Sized(v) && Slot(p) && |p| > 1 && up == p[..|p| - 1] && Created(v, u, up)
    ensures Val(u, p) == Val(v, p) && Reached(u, p) && Layout(u)
  {
    hide Val;
    assert !IsPrefix(p, up);
  }

  lemma GrowCreates(v: Volume, p: Path)
    requires Tree(v) && Slot(p) && Clean(v, p)
    ensures Enough(v, p) ==> Grow(v, p).Ok? && Created(v, Grow(v, p).value, p)
    ensures !Enough(v, p) && |v.zmap| < 65536 ==> Grow(v, p) == Halt(AssertFailed)
  {
    assert Sized(v) && Layout(v);
    hide Val, Layout, AllMarked, Distinct, Blank, Ensure, ClearBits, TakesBlank;
    if !Leaf(p) {
      GrowTakes(v, p, 0);
    } else if |p| == 1 {
      ReadyHere(v, p);
      EnsureCreates(v, p);
    } else {
      GrowTakes(v, p[..|p| - 1], 0);
      if Enough(v, p[..|p| - 1]) {
        LeafStep(v, Grow(v, p[..|p| - 1]).value, p);
      }
    }
  }

  lemma LeafStep(v: Volume, u: Volume, p: Path)
    requires Sized(v) && Leaf(p) && |p| > 1 && Grow(v, p[..|p| - 1]) == Ok(u) && Created(v, u, p[..|p| - 1])
    ensures Enough(v, p) ==> Grow(v, p).Ok? && Created(v, Grow(v, p).value, p)
    ensures !Enough(v, p) && |v.zmap| < 65536 ==> Grow(v, p) == Halt(AssertFailed)
  {
    hide Val, Layout, AllMarked, Distinct, Blank, Ensure, ClearBits, TakesBlank;
    SameBelow(v, u, p[..|p| - 1], p);
    ReadyHere(u, p);
    EnsureCreates(u, p);
    if Enough(v, p) {
      GrownTwice(v, u, Ensure(u, p).value, p);
    }
  }

  // ---------- bmap with create ----------

  lemma GetIsVal(v: Volume, p: Path)
    requires Reached(v, p)
    ensures Get(v, NodeOf(v, p), p[|p| - 1]) == Val(v, p)
  {
    if |p| == 1 {
      GetRoot(v, p[0]);
      assert p == [p[0]];
    } else {
      GetIndex(v, p);
    }
  }

  lemma SameNode(v: Volume, w: Volume, p: Path)
    requires Reached(v, p) && Grown(v, w, p)
    ensures Reached(w, p) && NodeOf(w, p) == NodeOf(v, p)
  {
  }

  // One round of the loop at slot p, when there is a free zone if one is needed.
  lemma RoundCreates(v: Volume, p: Path, level: nat, block: nat, divider: nat)
    requires Tree(v) && Reached(v, p) && Ready(v, p) && (level > 0 ==> divider > 0)
    ensures var r := Walk(Hold(v, NodeOf(v, p)), NodeOf(v, p), p[|p| - 1], level, block, divider, true);
      && (Ensure(v, p).Halt? ==> r == Halt(Ensure(v, p).why))
      && (Val(v, p) != 0 || ClearBits(v.zmap) > 0 ==>
            && Ensure(v, p).Ok?
            && var w := Ensure(v, p).value;
            r == if level == 0 then Ok((w, Val(w, p)))
                 else Walk(Hold(w, Index(Val(w, p))), Index(Val(w, p)), Quot(block, divider), level - 1, Rem(block, divider), Quot(divider, BLOCK_INDEXES), true))
  {
    assert Sized(v);
    EnsureCreates(v, p);
    VisitEnsures(v, p);
    hide Tree, Walk, Visit, Ensure, Val, Get, Quot, Rem, Ready;
    if Ensure(v, p).Halt? {
      WalkHalts(v, NodeOf(v, p), p[|p| - 1], level, block, divider);
    } else if Val(v, p) != 0 || ClearBits(v.zmap) > 0 {
      var w := Ensure(v, p).value;
      SameNode(v, w, p);
      GetIsVal(w, p);
      Round(v, w, NodeOf(v, p), p[|p| - 1], level, block, divider, true);
    }
  }

  lemma WalkHalts(v: Volume, node: Node, index: nat, level: nat, block: nat, divider: nat)
    requires Sized(v) && index < Width(node) && Visit(Hold(v, node), node, index, true).Halt?
    ensures Walk(Hold(v, node), node, index, level, block, divider, true) == Halt(Visit(Hold(v, node), node, index, true).why)
  {
    hide Visit;
  }

  lemma ValUp(v: Volume, w: Volume, p: Path, q: Path)
    requires Sized(v) && Slot(p) && Slot(q) && |q| == |p| + 1 && q[..|p|] == p && Created(v, w, p)
    ensures Val(w, q) == Val(v, q) && Reached(w, q) && NodeOf(w, q) == Index(Val(w, p))
    ensures Enough(v, q) ==> Val(w, q) != 0 || ClearBits(w.zmap) > 0
    ensures !Enough(v, q) ==> Val(w, q) == 0 && ClearBits(w.zmap) == 0
  {
    hide Val, ClearBits;
    assert !IsPrefix(q, p);
    assert q[..|q| - 1] == p;
  }

  // What bmap with create does to a sound volume, as far as the bitmap allows.
  ghost predicate Grows(v: Volume, r: Result<(Volume, nat)>, p: Path)
    requires Sized(v) && Slot(p)
  {
    && (Enough(v, p) ==> Grow(v, p).Ok? && r == Ok((Grow(v, p).value, Val(Grow(v, p).value, p))))
    && (!Enough(v, p) && |v.zmap| < 65536 ==> r == Halt(AssertFailed))
  }

  // A round of the loop at slot p has done what Grow does, and goes on from there.
  ghost predicate Rounded(v: Volume, p: Path, r: Result<(Volume, nat)>, level: nat, block: nat, divider: nat)
    requires Sized(v) && Slot(p) && (level > 0 ==> divider > 0)
  {
    && (Enough(v, p) ==> Grow(v, p).Ok? && var w := Grow(v, p).value;
          r == if level == 0 then Ok((w, Val(w, p)))
               else Walk(Hold(w, Index(Val(w, p))), Index(Val(w, p)), Quot(block, divider), level - 1, Rem(block, divider), Quot(divider, BLOCK_INDEXES), true))
    && (!Enough(v, p) && |v.zmap| < 65536 ==> r == Halt(AssertFailed))
  }

  // The divider after the last index block is 0; it is not used any more.
  lemma Dividers(b: nat)
    ensures Quot(b, 1) == b && Rem(b, 1) == 0 && Quot(1, BLOCK_INDEXES) == 0 && Quot(BLOCK_INDEXES, BLOCK_INDEXES) == 1
    ensures Quot(b, BLOCK_INDEXES) == b / 512 && Rem(b, BLOCK_INDEXES) == b % 512
  {
  }

  lemma RoundedLast(v: Volume, p: Path, r: Result<(Volume, nat)>, block: nat, divider: nat)
    requires Sized(v) && Slot(p) && Rounded(v, p, r, 0, block, divider)
    ensures Grows(v, r, p)
  {
  }

  lemma RoundedOn(v: Volume, p: Path, r: Result<(Volume, nat)>, level: nat, block: nat, divider: nat)
    requires Sized(v) && Slot(p) && level > 0 && divider > 0 && Rounded(v, p, r, level, block, divider)
    ensures Enough(v, p) && Grow(v, p).Ok? ==> var w := Grow(v, p).value;
      r == Walk(Hold(w, Index(Val(w, p))), Index(Val(w, p)), Quot(block, divider), level - 1, Rem(block, divider), Quot(divider, BLOCK_INDEXES), true)
  {
    hide Walk, Val, Grow, Quot, Rem;
  }

  lemma RoundedHalts(v: Volume, p: Path, q: Path, r: Result<(Volume, nat)>, level: nat, block: nat, divider: nat)
    requires Sized(v) && Slot(p) && Slot(q) && level > 0 && divider > 0 && Rounded(v, q, r, level, block, divider)
    requires !Enough(v, q) && !Enough(v, p)
    ensures Grows(v, r, p)
  {
    hide Walk, Val, Grow, Quot, Rem;
  }

  lemma TopRound(v: Volume, k: nat, level: nat, block: nat, divider: nat)
    requires Tree(v) && Sized(v) && k < DIRECT_BLOCK + 2 && (level > 0 ==> divider > 0) && Ready(v, [k])
    ensures Rounded(v, [k], Walk(Hold(v, Root), Root, k, level, block, divider, true), level, block, divider)
  {
    hide Tree, Val, Walk, Ensure, ClearBits, Quot, Rem, Ready;
    var p: Path := [k];
    assert NodeOf(v, p) == Root && Reached(v, p);
    RoundCreates(v, p, level, block, divider);
    EnsureCreates(v, p);
    FirstEnough(v, p);
  }

  lemma FirstEnough(v: Volume, p: Path)
    requires Sized(v) && Slot(p) && |p| == 1
    ensures Enough(v, p) <==> Val(v, p) != 0 || ClearBits(v.zmap) > 0
    ensures Grow(v, p) == Ensure(v, p)
  {
  }

  // The next round, at a child of the slot that the last round has filled.
  lemma NextRound(v: Volume, p: Path, level: nat, block: nat, divider: nat)
    requires Tree(v) && Sized(v) && Slot(p) && |p| > 1 && (level > 0 ==> divider > 0) && Enough(v, p[..|p| - 1]) && Clean(v, p)
    ensures Grow(v, p[..|p| - 1]).Ok?
    ensures var u := Grow(v, p[..|p| - 1]).value;
      var node := Index(Val(u, p[..|p| - 1]));
      Rounded(v, p, Walk(Hold(u, node), node, p[|p| - 1], level, block, divider, true), level, block, divider)
  {
    hide Val, ClearBits, Tree, Ensure, Walk, Hold, TakesBlank, Ready, Quot, Rem;
    var up := p[..|p| - 1];
    var here := if Leaf(p) || Val(v, p) != 0 then 0 else 1;
    GrowTakes(v, up, here);
    var u := Grow(v, up).value;
    SameBelow(v, u, up, p);
    CreatedSound(v, u, up);
    ReadyHere(u, p);
    ValUp(v, u, up, p);
    RoundCreates(u, p, level, block, divider);
    EnsureCreates(u, p);
  }

  lemma CreatedSound(v: Volume, u: Volume, p: Path)
    requires Sized(v) && Slot(p) && Created(v, u, p)
    ensures Tree(u)
  {
  }

  lemma NotEnoughBelow(v: Volume, p: Path)
    requires Sized(v) && Slot(p) && |p| > 1 && !Enough(v, p[..|p| - 1])
    ensures !Enough(v, p)
  {
  }

  lemma CleanUp(v: Volume, p: Path)
    requires Sized(v) && Slot(p) && |p| > 1 && Clean(v, p)
    ensures Clean(v, p[..|p| - 1])
  {
    TakesFewer(v, MissingIndex(v, p), MissingIndex(v, p[..|p| - 1]));
  }

  lemma ReadyTop(v: Volume, p: Path)
    requires Layout(v) && Slot(p) && |p| == 1 && Clean(v, p)
    ensures Ready(v, p)
  {
    ReadyHere(v, p);
  }

  // The loop, started with the inode's buffer held, is Grow.
  lemma BmapGrows(v: Volume, block: nat)
    requires Tree(v) && Sized(v) && block < TOTAL_BLOCK && Clean(v, PathOf(block))
    ensures Grows(v, Bmap(v, block, true), PathOf(block))
  {
    assert Layout(v);
    BmapIs(v, block, true);
    hide *;
    if block < DIRECT_BLOCK {
      Direct(v, block, PathOf(block));
    } else if block - DIRECT_BLOCK < INDIRECT1_BLOCK {
      OneLevel(v, block - DIRECT_BLOCK, PathOf(block));
    } else {
      TwoLevels(v, block - DIRECT_BLOCK - INDIRECT1_BLOCK, PathOf(block));
    }
  }

  lemma Direct(v: Volume, block: nat, p: Path)
    requires Tree(v) && Sized(v) && block < DIRECT_BLOCK && p == [block] && Clean(v, p)
    ensures Grows(v, Walk(Hold(v, Root), Root, block, 0, block, 1, true), p)
  {
    assert Layout(v) && Slot(p);
    hide *;
    ReadyTop(v, p);
    TopRound(v, block, 0, block, 1);
    RoundedLast(v, p, Walk(Hold(v, Root), Root, block, 0, block, 1, true), block, 1);
  }

  // Where the loop starts, and the slot it ends at.
  lemma BmapIs(v: Volume, block: nat, create: bool)
    requires Sized(v) && block < TOTAL_BLOCK
    ensures block < DIRECT_BLOCK ==>
      PathOf(block) == [block] && Bmap(v, block, create) == Walk(Hold(v, Root), Root, block, 0, block, 1, create)
    ensures DIRECT_BLOCK <= block < DIRECT_BLOCK + INDIRECT1_BLOCK ==>
      var b := block - DIRECT_BLOCK;
      Single(PathOf(block), b) && Bmap(v, block, create) == Walk(Hold(v, Root), Root, DIRECT_BLOCK, 1, b, 1, create)
    ensures DIRECT_BLOCK + INDIRECT1_BLOCK <= block ==>
      var b := block - DIRECT_BLOCK - INDIRECT1_BLOCK;
      && b < INDIRECT2_BLOCK && Double(PathOf(block), b)
      && Bmap(v, block, create) == Walk(Hold(v, Root), Root, DIRECT_BLOCK + 1, 2, b, BLOCK_INDEXES, create)
  {
    hide Walk;
  }

  lemma OneLevel(v: Volume, b: nat, p: Path)
    requires Tree(v) && Sized(v) && b < INDIRECT1_BLOCK && Single(p, b) && Clean(v, p)
    ensures Grows(v, Walk(Hold(v, Root), Root, DIRECT_BLOCK, 1, b, 1, true), p)
  {
    assert Layout(v);
    hide Tree, Layout, Val, Walk, Grow, Enough, Hold, Clean, Ready, Rounded, Grows, Quot, Rem;
    Dividers(b);
    var r := Walk(Hold(v, Root), Root, DIRECT_BLOCK, 1, b, 1, true);
    assert p[..1] == [DIRECT_BLOCK];
    CleanUp(v, p);
    ReadyTop(v, p[..1]);
    TopRound(v, DIRECT_BLOCK, 1, b, 1);
    if Enough(v, p[..1]) {
      RoundedOn(v, p[..1], r, 1, b, 1);
      NextRound(v, p, 0, 0, 0);
      RoundedLast(v, p, r, 0, 0);
    } else {
      NotEnoughBelow(v, p);
      RoundedHalts(v, p, p[..1], r, 1, b, 1);
    }
  }

  lemma TwoLevels(v: Volume, b: nat, p: Path)
    requires Tree(v) && Sized(v) && b < INDIRECT2_BLOCK && Double(p, b) && Clean(v, p)
    ensures Grows(v, Walk(Hold(v, Root), Root, DIRECT_BLOCK + 1, 2, b, BLOCK_INDEXES, true), p)
  {
    assert Layout(v);
    hide Tree, Layout, Val, Walk, Grow, Enough, Hold, Clean, Ready, Rounded, Grows, Quot, Rem;
    Dividers(b);
    var i, j := p[1], p[2];
    var mid: Path := [DIRECT_BLOCK + 1, i];
    var r := Walk(Hold(v, Root), Root, DIRECT_BLOCK + 1, 2, b, BLOCK_INDEXES, true);
    assert p[..2] == mid && mid[..1] == [DIRECT_BLOCK + 1];
    CleanUp(v, p);
    CleanUp(v, mid);
    ReadyTop(v, mid[..1]);
    TopRound(v, DIRECT_BLOCK + 1, 2, b, BLOCK_INDEXES);
    if Enough(v, mid[..1]) {
      RoundedOn(v, mid[..1], r, 2, b, BLOCK_INDEXES);
      NextRound(v, mid, 1, j, 1);
      if Enough(v, mid) {
        NextRound(v, p, 0, 0, 0);
        RoundedOn(v, mid, r, 1, j, 1);
        RoundedLast(v, p, r, 0, 0);
      } else {
        NotEnoughBelow(v, p);
        RoundedHalts(v, p, mid, r, 1, j, 1);
      }
    } else {
      NotEnoughBelow(v, mid);
      NotEnoughBelow(v, p);
      RoundedHalts(v, p, mid[..1], r, 2, b, BLOCK_INDEXES);
    }
  }
}
