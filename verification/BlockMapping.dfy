/**
 What bmap is for: with `create` it gives a block of a file a zone of its own and
 moves nothing else.  It does so exactly when the index blocks that it takes into use
 happen to read as zeros, because it does not clear them.
 */
module BlockMapping {
  import opened Outcome
  import opened Bitmap
  import opened BlockMap

  // A leaf is not on the way to another leaf.
  lemma LeafPrefix(p: Path, q: Path)
    requires Leaf(p) && Leaf(q) && IsPrefix(q, p)
    ensures p == q
  {
  }

  lemma PathIsLeaf(block: nat)
    requires block < TOTAL_BLOCK
    ensures Leaf(PathOf(block))
  {
  }

  lemma ValUpwards(v: Volume, p: Path)
    requires Sized(v) && Slot(p) && Val(v, p) != 0
    ensures Missing(v, p) == 0
    decreases |p|
  {
    if |p| > 1 {
      ValUpwards(v, p[..|p| - 1]);
    }
  }

  lemma GrowNothing(v: Volume, p: Path)
    requires Sized(v) && Slot(p) && Val(v, p) != 0
    ensures Grow(v, p) == Ok(v)
    decreases |p|
  {
    if |p| > 1 {
      GrowNothing(v, p[..|p| - 1]);
    }
  }

  // A block that is mapped stays as it is, with and without create.
  lemma MappedStays(v: Volume, block: nat, create: bool)
    requires Tree(v) && Sized(v) && block < TOTAL_BLOCK && MapOf(v, block) != 0
    ensures Bmap(v, block, create) == Ok((v, MapOf(v, block)))
  {
    LookupFollowsPath(v, block);
    if create {
      var p := PathOf(block);
      ValUpwards(v, p);
      GrowNothing(v, p);
      assert Clean(v, p) by {
        NoneMissing(v, p);
      }
      BmapGrows(v, block);
      hide Bmap, Tree, Grow;
    }
  }

  lemma NoneMissing(v: Volume, p: Path)
    requires Sized(v) && Slot(p) && Missing(v, p) == 0
    ensures Clean(v, p)
  {
  }

  // What create has to do for a block: v is the volume before, w after, z the result.
  ghost predicate Mapped(v: Volume, w: Volume, z: nat, block: nat)
    requires Sized(v) && Sized(w) && block < TOTAL_BLOCK
  {
    && z != 0 && MapOf(w, block) == z
    && (if MapOf(v, block) != 0 then w == v else Free(v, z) && Marked(w, z))
    && (forall b: nat :: b < TOTAL_BLOCK && b != block ==> MapOf(w, b) == MapOf(v, b))
    && Tree(w) && Grown(v, w, PathOf(block))
    && Bmap(w, block, true) == Bmap(w, block, false) == Ok((w, z))
  }

  // With enough free zones, and blank ones for the index blocks, the block gets a zone
  // of its own; every other block keeps its zone, all zones of the file stay distinct
  // and marked, blocks of other files are not written, every buffer is given back, and
  // asking again changes nothing.
  lemma CreateMaps(v: Volume, block: nat)
    requires Tree(v) && Sized(v) && block < TOTAL_BLOCK && Clean(v, PathOf(block)) && Enough(v, PathOf(block))
    ensures Bmap(v, block, true).Ok?
    ensures var (w, z) := Bmap(v, block, true).value; Sized(w) && Mapped(v, w, z, block)
  {
    var p := PathOf(block);
    BmapGrows(v, block);
    GrowCreates(v, p);
    var w := Grow(v, p).value;
    PathIsLeaf(block);
    hide Tree, Grow, Val, Clean, Bmap;
    forall b: nat | b < TOTAL_BLOCK && b != block ensures MapOf(w, b) == MapOf(v, b) {
      OtherBlocks(v, w, block, b);
    }
    MappedStays(w, block, true);
    MappedStays(w, block, false);
    if MapOf(v, block) != 0 {
      MappedStays(v, block, true);
    }
  }

  lemma OtherBlocks(v: Volume, w: Volume, block: nat, b: nat)
    requires block < TOTAL_BLOCK && b < TOTAL_BLOCK && b != block && Grown(v, w, PathOf(block))
    ensures MapOf(w, b) == MapOf(v, b)
  {
    PathIsLeaf(block);
    PathIsLeaf(b);
    if PathOf(b) == PathOf(block) {
      PathsAreInjective(b, block);
    } else if IsPrefix(PathOf(b), PathOf(block)) {
      LeafPrefix(PathOf(block), PathOf(b));
    }
  }

  // Without enough free zones a bitmap of fewer than eight blocks makes create stop.
  lemma CreateStops(v: Volume, block: nat)
    requires Tree(v) && Sized(v) && block < TOTAL_BLOCK && Clean(v, PathOf(block)) && |v.zmap| < 65536
    ensures Bmap(v, block, true).Halt? <==> !Enough(v, PathOf(block))
  {
    BmapGrows(v, block);
    hide Bmap, Grow;
  }

  // ---------- index blocks that are not blank ----------

  // Entries are only ever filled, never changed.
  ghost predicate OnlyFills(v: Volume, w: Volume) {
    && Sized(v) && Sized(w)
    && (forall i :: 0 <= i < |v.zone| && v.zone[i] != 0 ==> w.zone[i] == v.zone[i])
    && (forall x: nat, i :: 0 <= i < BLOCK_INDEXES && Words(v, x)[i] != 0 ==> Words(w, x)[i] == Words(v, x)[i])
  }

  lemma AllocateOnlyFills(v: Volume, node: Node, index: nat)
    requires Sized(v) && index < Width(node) && Get(v, node, index) == 0 && Allocate(v, node, index).Ok?
    ensures OnlyFills(v, Allocate(v, node, index).value)
    ensures ClearBits(Allocate(v, node, index).value.zmap) >= ClearBits(v.zmap) - 1
  {
    var s := FirstFit(v.zmap, 1, 0);
    if s != -1 {
      ClearUpdate(v.zmap, s);
    }
    hide FirstFit, ClearBits;
  }

  lemma VisitOnlyFills(v: Volume, node: Node, index: nat, create: bool)
    requires Sized(v) && index < Width(node) && Visit(v, node, index, create).Ok?
    ensures var w := Visit(v, node, index, create).value.0;
      OnlyFills(v, w) && ClearBits(w.zmap) >= ClearBits(v.zmap) - if Get(v, node, index) == 0 then 1 else 0
  {
    if Get(v, node, index) == 0 && create {
      AllocateOnlyFills(v, node, index);
    }
    hide Allocate, Get, ClearBits;
  }

  lemma FillsTwice(u: Volume, v: Volume, w: Volume)
    requires OnlyFills(u, v) && OnlyFills(v, w)
    ensures OnlyFills(u, w)
  {
  }

  // `level` more rounds allocate at most that many zones and one; one less if the first
  // slot is not empty.
  lemma {:induction false} WalkOnlyFills(v: Volume, node: Node, index: nat, level: nat, block: nat, divider: nat, create: bool)
    requires Sized(v) && Walk(v, node, index, level, block, divider, create).Ok?
    ensures var w := Walk(v, node, index, level, block, divider, create).value.0;
      && OnlyFills(v, w) && index < Width(node)
      && ClearBits(w.zmap) >= ClearBits(v.zmap) - level - if Get(v, node, index) == 0 then 1 else 0
    decreases level
  {
    VisitOnlyFills(v, node, index, create);
    var (v1, z) := Visit(v, node, index, create).value;
    hide Visit, Get, Words, ClearBits;
    if level > 0 && z != 0 {
      var v2 := v1.(pins := v1.pins + multiset{z});
      WalkOnlyFills(v2, Index(z), Quot(block, divider), level - 1, Rem(block, divider), Quot(divider, BLOCK_INDEXES), create);
      SamePins(v1, v2);
      var w := Walk(v, node, index, level, block, divider, create).value.0;
      hide Walk, OnlyFills;
      FillsTwice(v, v2, w) by {
        PinsFill(v, v1, v2);
      }
    }
  }

  lemma SamePins(v: Volume, w: Volume)
    requires w == v.(pins := w.pins)
    ensures ClearBits(w.zmap) == ClearBits(v.zmap)
  {
  }

  lemma PinsFill(u: Volume, v: Volume, w: Volume)
    requires OnlyFills(u, v) && w == v.(pins := w.pins)
    ensures OnlyFills(u, w)
  {
    forall x: nat ensures Words(w, x) == Words(v, x) {
    }
  }

  lemma {:induction false} ValOnlyFills(v: Volume, w: Volume, p: Path)
    requires OnlyFills(v, w) && Slot(p) && Val(v, p) != 0
    ensures Val(w, p) == Val(v, p)
    decreases |p|
  {
    if |p| > 1 {
      ValOnlyFills(v, w, p[..|p| - 1]);
    }
  }

  // The slot of an index block is filled with zone z, whatever is in z.
  lemma FilledAnyway(v: Volume, p: Path)
    requires Tree(v) && Reached(v, p) && Val(v, p) == 0 && ClearBits(v.zmap) > 0
    ensures var z := NextFree(v);
      && z > 0 && Free(v, z) && Ensure(v, p) == Ok(Filled(v, p, z)) && ClearBits(Filled(v, p, z).zmap) == ClearBits(v.zmap) - 1
      && Words(Filled(v, p, z), z) == Words(v, z)
      && NodeOf(Filled(v, p, z), p) == NodeOf(v, p) && Val(Filled(v, p, z), p) == z
  {
    EnsureIs(v, p);
    var z := NextFree(v);
    var w := Filled(v, p, z);
    ParentNotFresh(v, p, z);
    FilledArrays(v, p, z);
    hide Filled, NextFree, ClearBits, Words, Tree;
    ValStep(w, p);
    if |p| > 1 {
      UpperSame(v, p, z, p[..|p| - 1]);
    }
  }

  // Slots above the one that is filled, or beside it, do not change.
  lemma {:induction false} UpperSame(v: Volume, p: Path, z: nat, q: Path)
    requires Tree(v) && Reached(v, p) && Val(v, p) == 0 && Free(v, z) && Slot(q) && |q| < |p| && IsPrefix(q, p)
    ensures Val(Filled(v, p, z), q) == Val(v, q)
    decreases |q|
  {
    var w := Filled(v, p, z);
    FilledArrays(v, p, z);
    ValStep(v, q);
    ValStep(w, q);
    assert Distinct(v);
    hide Filled, Words, Val, Tree;
    if |q| > 1 {
      var up := q[..|q| - 1];
      UpperSame(v, p, z, up);
      TwoSlots(v, up, p[..|p| - 1]);
    }
  }

  lemma TwoSlots(v: Volume, p: Path, q: Path)
    requires Distinct(v) && Slot(p) && Slot(q) && p != q
    ensures Val(v, p) != 0 ==> Val(v, p) != Val(v, q)
  {
  }

  // r is what the loop makes of `node`, with its buffer held.
  ghost predicate Gives(v: Volume, node: Node, index: nat, level: nat, block: nat, divider: nat, r: Result<(Volume, nat)>)
    requires Sized(v)
  {
    r == Walk(Hold(v, node), node, index, level, block, divider, true)
  }

  lemma StaleVisit(v: Volume, p: Path, level: nat, block: nat, divider: nat, r: Result<(Volume, nat)>)
    requires Tree(v) && Reached(v, p) && Val(v, p) == 0 && ClearBits(v.zmap) > 0 && level > 0 && divider > 0
    requires Gives(v, NodeOf(v, p), p[|p| - 1], level, block, divider, r)
    ensures NextFree(v) > 0 && Free(v, NextFree(v))
    ensures var z, w := NextFree(v), Filled(v, p, NextFree(v));
      Gives(w, Index(z), Quot(block, divider), level - 1, Rem(block, divider), Quot(divider, BLOCK_INDEXES), r)
  {
    FilledAnyway(v, p);
    var w1 := Filled(v, p, NextFree(v));
    VisitEnsures(v, p);
    assert Reached(w1, p);
    GetIsVal(w1, p);
    Round(v, w1, NodeOf(v, p), p[|p| - 1], level, block, divider, true);
    hide Walk, Hold, Filled, NextFree, Val, Tree, ClearBits, Visit, Ensure, Get, Quot, Rem;
  }

  // Between v and w slot p has got index block z, whose entry k is not zero, and at most
  // n zones were allocated.
  ghost predicate TookStale(v: Volume, w: Volume, p: Path, z: nat, k: nat, n: int) {
    && OnlyFills(v, w) && Slot(p) && Val(w, p) == z != 0 && k < BLOCK_INDEXES && Words(w, z)[k] != 0
    && ClearBits(w.zmap) >= ClearBits(v.zmap) - n
  }

  lemma TakesStale(v: Volume, p: Path, k: nat)
    requires Tree(v) && Reached(v, p) && Val(v, p) == 0 && ClearBits(v.zmap) > 0 && k < BLOCK_INDEXES
    requires NextFree(v) >= 0 && Words(v, NextFree(v))[k] != 0
    ensures Free(v, NextFree(v)) && TookStale(v, Filled(v, p, NextFree(v)), p, NextFree(v), k, 1)
  {
    FilledAnyway(v, p);
    EnsureFills(v, p);
    hide Filled, Ensure, Val, ClearBits, OnlyFills, NextFree;
  }

  // A round that takes an index block whose entry k is not zero: the entry stays, and if
  // it is the one the loop goes on with, a zone fewer than needed is allocated.
  lemma StaleRound(v: Volume, p: Path, k: nat, level: nat, block: nat, divider: nat, r: Result<(Volume, nat)>)
    requires Sized(v) && Slot(p) && Tree(v) && Reached(v, p) && Val(v, p) == 0 && ClearBits(v.zmap) > 0
    requires level > 0 && divider > 0 && k < BLOCK_INDEXES
    requires NextFree(v) >= 0 && Words(v, NextFree(v))[k] != 0
    requires Gives(v, NodeOf(v, p), p[|p| - 1], level, block, divider, r) && r.Ok?
    ensures TookStale(v, r.value.0, p, NextFree(v), k, level + if Quot(block, divider) == k then 0 else 1)
  {
    hide *;
    TakesStale(v, p, k);
    StaleVisit(v, p, level, block, divider, r);
    StaleRest(v, Filled(v, p, NextFree(v)), p, NextFree(v), k, level - 1, Quot(block, divider), Rem(block, divider),
              Quot(divider, BLOCK_INDEXES), r);
  }

  lemma EnsureFills(v: Volume, p: Path)
    requires Reached(v, p) && Ensure(v, p).Ok?
    ensures OnlyFills(v, Ensure(v, p).value)
  {
    if Val(v, p) == 0 {
      GetIsVal(v, p);
      AllocateOnlyFills(v, NodeOf(v, p), p[|p| - 1]);
    }
    hide Allocate;
  }

  lemma StaleRest(v: Volume, w1: Volume, p: Path, z: nat, k: nat, level: nat, index: nat, block: nat, divider: nat,
                  r: Result<(Volume, nat)>)
    requires TookStale(v, w1, p, z, k, 1)
    requires Gives(w1, Index(z), index, level, block, divider, r) && r.Ok?
    ensures TookStale(v, r.value.0, p, z, k, level + 1 + if index == k then 0 else 1)
  {
    var h := Hold(w1, Index(z));
    WalkOnlyFills(h, Index(z), index, level, block, divider, true);
    var w := r.value.0;
    SamePins(w1, h);
    PinsFill(v, w1, h);
    PinsFill(w1, w1, h);
    FillsTwice(w1, h, w);
    FillsTwice(v, h, w);
    ValOnlyFills(w1, w, p);
    hide Walk, Val, ClearBits;
    assert Get(h, Index(z), index) == Words(h, z)[index] && Words(h, z) == Words(w1, z);
  }

  // A soundly created block has clean index blocks behind it.
  ghost predicate CreateSound(v: Volume, w: Volume, p: Path)
    requires Sized(v) && Slot(p)
  {
    Grown(v, w, p) && ClearBits(w.zmap) == ClearBits(v.zmap) - Missing(v, p)
  }

  lemma StaleBreaks(v: Volume, w: Volume, q: Path, p: Path, k: nat)
    requires Sized(v) && Leaf(p) && Slot(q) && IsPrefix(q, p) && q != p && |q| < |p| && Val(v, q) == 0 && k < BLOCK_INDEXES
    requires Sized(w) && Val(w, q) != 0 && Words(w, Val(w, q))[k] != 0
    requires p[|q|] == k ==> ClearBits(w.zmap) > ClearBits(v.zmap) - Missing(v, p)
    ensures !CreateSound(v, w, p)
  {
    var c := q + [k];
    assert c[..|c| - 1] == q && Slot(c);
    ValStep(w, c);
    ValStep(v, c);
    hide Val, ClearBits, Missing;
    if IsPrefix(c, p) {
      assert p[..|c|][|q|] == k;
    }
  }

  // An index block that is not blank has an entry that is not zero.
  lemma NotBlank(v: Volume) returns (k: nat)
    requires Tree(v) && Sized(v) && !TakesBlank(v, 1)
    ensures ClearBits(v.zmap) > 0 && NextFree(v) >= 0 && k < BLOCK_INDEXES && Words(v, NextFree(v))[k] != 0
  {
    FirstFree(v);
    var w := Words(v, NextFree(v));
    assert TakesBlank(v.(zmap := v.zmap[NextFree(v) - v.first + 1 := true]), 0);
    hide NextFree, ClearBits, Words, Tree;
    assert w != Zeros() && |w| == |Zeros()|;
    k :| k < BLOCK_INDEXES && w[k] != 0;
  }

  // The loop meets slot q of an empty index block, which is not blank.
  lemma MeetsStale(v: Volume, u: Volume, r: Result<(Volume, nat)>, q: Path, p: Path, level: nat, block: nat, divider: nat, done: nat)
    requires Sized(v) && Leaf(p) && Slot(q) && |q| < |p| && IsPrefix(q, p) && q != p && Val(v, q) == 0 && Sized(u) && r.Ok? && Sized(r.value.0)
    requires Tree(u) && Reached(u, q) && Val(u, q) == 0 && !TakesBlank(u, 1) && level > 0 && divider > 0
    requires Gives(u, NodeOf(u, q), q[|q| - 1], level, block, divider, r)
    requires ClearBits(u.zmap) == ClearBits(v.zmap) - done && Missing(v, p) == done + level + 1 && Quot(block, divider) == p[|q|]
    ensures !CreateSound(v, r.value.0, p)
  {
    var k := NotBlank(u);
    hide Gives, Tree, NextFree, Reached, Quot, Missing, ClearBits, TakesBlank, Val;
    StaleRound(u, q, k, level, block, divider, r);
    assert Val(r.value.0, q) == NextFree(u) != 0 && Words(r.value.0, NextFree(u))[k] != 0;
    StaleBreaks(v, r.value.0, q, p, k);
  }

  lemma StaleOneLevel(v: Volume, b: nat, p: Path, r: Result<(Volume, nat)>)
    requires Tree(v) && Sized(v) && b < INDIRECT1_BLOCK && Single(p, b) && !Clean(v, p)
    requires Gives(v, Root, DIRECT_BLOCK, 1, b, 1, r) && r.Ok? && Sized(r.value.0)
    ensures !CreateSound(v, r.value.0, p)
  {
    var q: Path := [DIRECT_BLOCK];
    assert p[..1] == q && NodeOf(v, q) == Root && Reached(v, q) && Leaf(p);
    assert MissingIndex(v, p) == Missing(v, q) == 1 && Val(v, q) == 0;
    ValZeroBelow(v, p);
    Dividers(b);
    hide Walk, Tree, Val, TakesBlank, Gives, CreateSound;
    MeetsStale(v, v, r, q, p, 1, b, 1, 0);
  }

  lemma ValZeroBelow(v: Volume, p: Path)
    requires Sized(v) && Slot(p) && |p| > 1 && Val(v, p[..|p| - 1]) == 0
    ensures Val(v, p) == 0 && Missing(v, p) == Missing(v, p[..|p| - 1]) + 1
  {
  }

  // The round at the second index block, in state u.
  lemma StaleBelow(v: Volume, u: Volume, b: nat, p: Path, r: Result<(Volume, nat)>, done: nat)
    requires Sized(v) && Sized(u) && r.Ok? && Sized(r.value.0) && b < INDIRECT2_BLOCK && Double(p, b)
    requires Tree(u) && Val(u, p[..1]) != 0 && Val(u, p[..2]) == 0 && Val(v, p[..2]) == 0 && !TakesBlank(u, 1)
    requires Gives(u, Index(Val(u, p[..1])), Quot(b, BLOCK_INDEXES), 1, Rem(b, BLOCK_INDEXES), 1, r)
    requires ClearBits(u.zmap) == ClearBits(v.zmap) - done && Missing(v, p) == done + 2
    ensures !CreateSound(v, r.value.0, p)
  {
    var m := p[..2];
    assert m[..1] == p[..1] && IsPrefix(m, p) && Leaf(p) && Slot(m);
    assert NodeOf(u, m) == Index(Val(u, p[..1])) && Reached(u, m);
    Dividers(b);
    Dividers(p[2]);
    hide Tree, Val, TakesBlank, Gives, CreateSound, NodeOf, Missing, ClearBits, Quot, Rem, Reached;
    MeetsStale(v, u, r, m, p, 1, p[2], 1, done);
  }

  lemma StaleSecond(v: Volume, b: nat, p: Path, r: Result<(Volume, nat)>)
    requires Tree(v) && Sized(v) && b < INDIRECT2_BLOCK && Double(p, b) && !TakesBlank(v, 2) && TakesBlank(v, 1)
    requires Val(v, p[..1]) == 0 && Val(v, p[..2]) == 0 && Missing(v, p) == 3 && r.Ok? && Sized(r.value.0)
    requires Gives(v, Root, DIRECT_BLOCK + 1, 2, b, BLOCK_INDEXES, r)
    ensures !CreateSound(v, r.value.0, p)
  {
    var q: Path := [DIRECT_BLOCK + 1];
    assert p[..1] == q && p[..2][..1] == q && NodeOf(v, q) == Root && Reached(v, q) && Slot(p[..2]);
    TakenSecond(v, q);
    var n := NextFree(v);
    var u := Filled(v, q, n);
    FilledMarked(v, q, n);
    FilledDistinct(v, q, n);
    FilledVal(v, q, n, q);
    FilledVal(v, q, n, p[..2]);
    FilledAnyway(v, q);
    SecondRound(v, u, n, b, r);
    assert Sized(u) && Tree(u);
    hide Tree, Val, TakesBlank, Gives, CreateSound, NodeOf, Missing, ClearBits, Filled, NextFree, Reached;
    StaleBelow(v, u, b, p, r, 1);
  }

  lemma TakenSecond(v: Volume, q: Path)
    requires Tree(v) && Sized(v) && q == [DIRECT_BLOCK + 1] && !TakesBlank(v, 2) && TakesBlank(v, 1)
    ensures ClearBits(v.zmap) > 0 && NextFree(v) >= 0 && Free(v, NextFree(v)) && Words(v, NextFree(v)) == Zeros()
    ensures !TakesBlank(Filled(v, q, NextFree(v)), 1)
  {
    FirstFree(v);
    assert TakesBlank(v.(zmap := v.zmap[NextFree(v) - v.first + 1 := true]), 0);
    var u := v.(zmap := v.zmap[NextFree(v) - v.first + 1 := true]);
    assert !TakesBlank(u, 1);
    FilledArrays(v, q, NextFree(v));
    var w := Filled(v, q, NextFree(v));
    if TakesBlank(w, 1) {
      TakesSame(w, u, 1);
    }
  }

  lemma SecondRound(v: Volume, u: Volume, n: nat, b: nat, r: Result<(Volume, nat)>)
    requires Sized(v) && Sized(u) && Reached(v, [DIRECT_BLOCK + 1]) && n != 0
    requires Ensure(v, [DIRECT_BLOCK + 1]) == Ok(u) && Val(u, [DIRECT_BLOCK + 1]) == n
    requires Gives(v, Root, DIRECT_BLOCK + 1, 2, b, BLOCK_INDEXES, r)
    ensures Gives(u, Index(n), Quot(b, BLOCK_INDEXES), 1, Rem(b, BLOCK_INDEXES), 1, r)
  {
    var q: Path := [DIRECT_BLOCK + 1];
    VisitEnsures(v, q);
    GetRoot(u, DIRECT_BLOCK + 1);
    Dividers(b);
    Round(v, u, Root, DIRECT_BLOCK + 1, 2, b, BLOCK_INDEXES, true);
    hide Walk, Hold, Val, Visit, Ensure, Get, Quot, Rem;
  }

  lemma FirstRoundFinds(v: Volume, b: nat, r: Result<(Volume, nat)>)
    requires Sized(v) && Val(v, [DIRECT_BLOCK + 1]) != 0
    requires Gives(v, Root, DIRECT_BLOCK + 1, 2, b, BLOCK_INDEXES, r)
    ensures Gives(v, Index(Val(v, [DIRECT_BLOCK + 1])), Quot(b, BLOCK_INDEXES), 1, Rem(b, BLOCK_INDEXES), 1, r)
  {
    GetRoot(v, DIRECT_BLOCK + 1);
    Dividers(b);
    RoundFinds(v, Root, DIRECT_BLOCK + 1, 2, b, BLOCK_INDEXES, true);
    hide Walk, Hold, Val, Get, Quot, Rem;
  }

  lemma StaleTwoLevels(v: Volume, b: nat, p: Path, r: Result<(Volume, nat)>)
    requires Tree(v) && Sized(v) && b < INDIRECT2_BLOCK && Double(p, b) && !Clean(v, p)
    requires Gives(v, Root, DIRECT_BLOCK + 1, 2, b, BLOCK_INDEXES, r) && r.Ok? && Sized(r.value.0)
    ensures !CreateSound(v, r.value.0, p)
  {
    var q: Path := [DIRECT_BLOCK + 1];
    var m := p[..2];
    assert m[..1] == q && NodeOf(v, q) == Root && Reached(v, q) && Leaf(p) && Slot(m) && IsPrefix(q, p);
    Dividers(b);
    Dividers(p[2]);
    assert MissingIndex(v, p) == Missing(v, m);
    if Val(v, q) != 0 {
      assert Missing(v, m) == 1 && Val(v, m) == 0;
      ValZeroBelow(v, p);
      FirstRoundFinds(v, b, r);
      assert p[..1] == q;
      hide Walk, Tree, TakesBlank, Gives, CreateSound;
      StaleBelow(v, v, b, p, r, 0);
    } else {
      ValZeroBelow(v, m);
      ValZeroBelow(v, p);
      if TakesBlank(v, 1) {
        StaleSecond(v, b, p, r);
      } else {
        hide Walk, Tree, Val, TakesBlank, Gives, CreateSound;
        MeetsStale(v, v, r, q, p, 2, b, BLOCK_INDEXES, 0);
      }
    }
  }

  // The property and its exact condition: a create does what it should if, and only if,
  // there are as many free zones as it needs and the index blocks it takes into use read
  // as zeros.
  lemma SoundExactlyWhenClean(v: Volume, block: nat)
    requires Tree(v) && Sized(v) && block < TOTAL_BLOCK
    ensures Clean(v, PathOf(block)) && Enough(v, PathOf(block)) <==>
      && Bmap(v, block, true).Ok?
      && Sized(Bmap(v, block, true).value.0)
      && CreateSound(v, Bmap(v, block, true).value.0, PathOf(block))
  {
    var p := PathOf(block);
    if Clean(v, p) && Enough(v, p) {
      BmapGrows(v, block);
      GrowCreates(v, p);
      hide Tree, Grow, Val, Bmap, ClearBits, Missing;
    } else if Bmap(v, block, true).Ok? && Sized(Bmap(v, block, true).value.0) {
      if !Clean(v, p) {
        StaleUnsound(v, block);
      } else {
        hide Tree, Bmap, ClearBits, Missing, Grown, Clean;
      }
    }
  }

  lemma StaleUnsound(v: Volume, block: nat)
    requires Tree(v) && Sized(v) && block < TOTAL_BLOCK && !Clean(v, PathOf(block))
    requires Bmap(v, block, true).Ok? && Sized(Bmap(v, block, true).value.0)
    ensures !CreateSound(v, Bmap(v, block, true).value.0, PathOf(block))
  {
    hide CreateSound, Bmap, Tree;
    var r := Bmap(v, block, true);
    if block < DIRECT_BLOCK {
      DirectClean(v, block);
    } else if block < DIRECT_BLOCK + INDIRECT1_BLOCK {
      StaleSingle(v, block - DIRECT_BLOCK, block, r);
    } else {
      StaleDouble(v, block - DIRECT_BLOCK - INDIRECT1_BLOCK, block, r);
    }
  }

  lemma DirectClean(v: Volume, block: nat)
    requires Sized(v) && block < DIRECT_BLOCK
    ensures Clean(v, PathOf(block))
  {
    assert MissingIndex(v, PathOf(block)) == 0;
  }

  lemma StaleSingle(v: Volume, b: nat, block: nat, r: Result<(Volume, nat)>)
    requires Tree(v) && Sized(v) && block == DIRECT_BLOCK + b && b < INDIRECT1_BLOCK && !Clean(v, PathOf(block))
    requires r == Bmap(v, block, true) && r.Ok? && Sized(r.value.0)
    ensures !CreateSound(v, r.value.0, PathOf(block))
  {
    hide Tree, Walk, Clean, CreateSound;
    BmapIs(v, block, true);
    assert Gives(v, Root, DIRECT_BLOCK, 1, b, 1, r);
    StaleOneLevel(v, b, PathOf(block), r);
  }

  lemma StaleDouble(v: Volume, b: nat, block: nat, r: Result<(Volume, nat)>)
    requires Tree(v) && Sized(v) && block == DIRECT_BLOCK + INDIRECT1_BLOCK + b && b < INDIRECT2_BLOCK && !Clean(v, PathOf(block))
    requires r == Bmap(v, block, true) && r.Ok? && Sized(r.value.0)
    ensures !CreateSound(v, r.value.0, PathOf(block))
  {
    hide Tree, Walk, Clean, CreateSound;
    BmapIs(v, block, true);
    assert Gives(v, Root, DIRECT_BLOCK + 1, 2, b, BLOCK_INDEXES, r);
    StaleTwoLevels(v, b, PathOf(block), r);
  }
}
