/**
 What bmap does when the zones run out.  The EOF that balloc returns for a full bitmap
 of eight blocks is cut to the 16-bit zone 65535, which the tree then goes on with.
 */
module FullVolume {
  import opened Outcome
  import opened Bitmap
  import opened BlockMap
  import opened BlockMapping

  const NO_ZONE := 0xFFFF // EOF in 16 bits

  ghost predicate Full(v: Volume) {
    Sized(v) && ClearBits(v.zmap) == 0 && |v.zmap| >= ZMAP_NR * BLOCK_BITS
  }

  lemma NothingFits(f: seq<bool>)
    requires ClearBits(f) == 0
    ensures FirstFit(f, 1, 0) == -1
  {
    ClearNone(f);
    forall k | 0 <= k < |f| ensures !IsClear(f, k, 1) {
      assert f[k];
    }
  }

  // The slot as the round leaves it.
  function Patched(v: Volume, node: Node, i: nat): Volume
    requires Sized(v) && i < Width(node)
  {
    if Get(v, node, i) == 0 then Put(v, node, i, NO_ZONE) else v
  }

  lemma PatchedIs(v: Volume, node: Node, i: nat)
    requires Full(v) && i < Width(node)
    ensures var w := Patched(v, node, i);
      && Full(w) && w.zmap == v.zmap && w.pins == v.pins && w.home == v.home && OnlyFills(v, w)
      && Get(w, node, i) == if Get(v, node, i) == 0 then NO_ZONE else Get(v, node, i)
  {
    hide ClearBits;
  }

  lemma FullVisit(v: Volume, node: Node, i: nat)
    requires Full(v) && i < Width(node)
    ensures Sized(Patched(v, node, i))
    ensures Visit(Hold(v, node), node, i, true) == Ok((Patched(v, node, i), Get(Patched(v, node, i), node, i)))
  {
    NothingFits(v.zmap);
    hide FirstFit, ClearBits;
    if Get(v, node, i) == 0 {
      assert Balloc(v) == Ok((v, EOF)) && EOF % 0x1_0000 == NO_ZONE;
      assert Allocate(v, node, i) == Ok(Patched(v, node, i));
      hide Allocate, Visit, Get, Put;
      VisitFills(v, node, i);
    } else {
      hide Visit, Get;
      VisitFinds(v, node, i, true);
    }
  }

  // The indexes that the loop computes from here on are inside their arrays.
  predicate Fits(level: nat, block: nat, divider: nat)
    decreases level
  {
    level == 0 || (divider > 0 && Quot(block, divider) < BLOCK_INDEXES
      && Fits(level - 1, Rem(block, divider), Quot(divider, BLOCK_INDEXES)))
  }

  // On a full volume the loop always ends with some zone number and all buffers given
  // back.  It writes 65535 into the empty slots it meets, whoever they belong to.
  lemma {:induction false} FullWalk(v: Volume, node: Node, index: nat, level: nat, block: nat, divider: nat, r: Result<(Volume, nat)>)
    requires Full(v) && index < Width(node) && Fits(level, block, divider)
    requires Gives(v, node, index, level, block, divider, r)
    ensures r.Ok? && Full(r.value.0) && r.value.1 != 0
    ensures OnlyFills(v, r.value.0) && r.value.0.zmap == v.zmap && r.value.0.pins == v.pins
    ensures Get(v, node, index) == 0 ==> Get(r.value.0, node, index) == NO_ZONE && (level == 0 ==> r.value.1 == NO_ZONE)
    decreases level
  {
    var w := Patched(v, node, index);
    PatchedIs(v, node, index);
    var z := Get(w, node, index);
    hide Patched, ClearBits, Gives, Get, OnlyFills, Full;
    FullIs(v);
    FullIs(w);
    FullRound(v, node, index, level, block, divider, r);
    if level > 0 {
      FullWalk(w, Index(z), Quot(block, divider), level - 1, Rem(block, divider), Quot(divider, BLOCK_INDEXES), r);
      FillsTwice(v, w, r.value.0);
      GetFills(w, r.value.0, node, index);
    }
  }

  lemma FullIs(v: Volume)
    requires Full(v)
    ensures Sized(v)
  {
  }

  lemma FullRound(v: Volume, node: Node, index: nat, level: nat, block: nat, divider: nat, r: Result<(Volume, nat)>)
    requires Full(v) && index < Width(node) && (level > 0 ==> divider > 0)
    requires Gives(v, node, index, level, block, divider, r)
    ensures Sized(Patched(v, node, index))
    ensures var w := Patched(v, node, index);
      var z := Get(w, node, index);
      && z != 0
      && if level == 0 then r == Ok((w, z))
         else Gives(w, Index(z), Quot(block, divider), level - 1, Rem(block, divider), Quot(divider, BLOCK_INDEXES), r)
  {
    FullVisit(v, node, index);
    PatchedIs(v, node, index);
    hide Visit, Patched, ClearBits, Walk, Get, OnlyFills, Full;
    Round(v, Patched(v, node, index), node, index, level, block, divider, true);
  }

  lemma GetFills(v: Volume, w: Volume, node: Node, i: nat)
    requires OnlyFills(v, w) && i < Width(node) && Get(v, node, i) != 0
    ensures Get(w, node, i) == Get(v, node, i)
  {
  }

  // What is left when slot q of the path was the first for which no zone was left.
  ghost predicate RanOut(q: Path, r: Result<(Volume, nat)>, last: bool) {
    && r.Ok? && Full(r.value.0) && Slot(q) && Val(r.value.0, q) == NO_ZONE
    && r.value.1 != 0 && (last ==> r.value.1 == NO_ZONE)
  }

  lemma RunsOut(u: Volume, q: Path, level: nat, block: nat, divider: nat, r: Result<(Volume, nat)>)
    requires Full(u) && Reached(u, q) && Val(u, q) == 0 && Fits(level, block, divider)
    requires r == Walk(Hold(u, NodeOf(u, q)), NodeOf(u, q), q[|q| - 1], level, block, divider, true)
    ensures RanOut(q, r, level == 0) && r.value.0.pins == u.pins
  {
    GetIsVal(u, q);
    assert Gives(u, NodeOf(u, q), q[|q| - 1], level, block, divider, r);
    hide Walk, Gives;
    FullWalk(u, NodeOf(u, q), q[|q| - 1], level, block, divider, r);
    var w := r.value.0;
    if |q| > 1 {
      ValOnlyFills(u, w, q[..|q| - 1]);
      assert Reached(w, q);
    }
    assert NodeOf(w, q) == NodeOf(u, q);
    GetIsVal(w, q);
    hide Val, Get, ClearBits;
  }

  // The same below a slot that did get a zone, in volume u.
  lemma RunsOutBelow(v: Volume, u: Volume, up: Path, q: Path, level: nat, block: nat, divider: nat, r: Result<(Volume, nat)>)
    requires Sized(v) && Slot(up) && Slot(q) && |q| == |up| + 1 && q[..|up|] == up && Created(v, u, up)
    requires !Enough(v, q) && |v.zmap| >= ZMAP_NR * BLOCK_BITS && Fits(level, block, divider)
    requires r == Walk(Hold(u, Index(Val(u, up))), Index(Val(u, up)), q[|q| - 1], level, block, divider, true)
    ensures RanOut(q, r, level == 0) && r.value.0.pins == v.pins && Val(v, q) == 0
  {
    ValUp(v, u, up, q);
    hide Walk, Val, Tree, Grown, ClearBits, RanOut;
    CreatedFrame(v, u, up);
    RunsOut(u, q, level, block, divider, r);
  }

  lemma CreatedFrame(v: Volume, u: Volume, p: Path)
    requires Sized(v) && Slot(p) && Created(v, u, p)
    ensures Sized(u) && u.pins == v.pins && |u.zmap| == |v.zmap|
  {
  }

  lemma TopRunsOut(v: Volume, k: nat, level: nat, block: nat, divider: nat, r: Result<(Volume, nat)>)
    requires Tree(v) && Sized(v) && k < DIRECT_BLOCK + 2 && !Enough(v, [k]) && |v.zmap| >= ZMAP_NR * BLOCK_BITS
    requires Fits(level, block, divider)
    requires r == Walk(Hold(v, Root), Root, k, level, block, divider, true)
    ensures RanOut([k], r, level == 0) && r.value.0.pins == v.pins && Val(v, [k]) == 0
  {
    hide Walk, RanOut, Tree, ClearBits;
    var q: Path := [k];
    FirstEnough(v, q);
    assert NodeOf(v, q) == Root && Reached(v, q);
    RunsOut(v, q, level, block, divider, r);
  }

  // Some slot on the way to p, empty before, has got 65535.
  ghost predicate HasEof(v: Volume, w: Volume, p: Path)
    requires Sized(v) && Sized(w)
  {
    exists q: Path :: Slot(q) && IsPrefix(q, p) && Val(v, q) == 0 && Val(w, q) == NO_ZONE
  }

  // ... and here is what bmap has done then.
  ghost predicate Overrun(v: Volume, r: Result<(Volume, nat)>, p: Path)
    requires Sized(v) && Slot(p)
  {
    && r.Ok? && Full(r.value.0) && r.value.0.pins == v.pins && HasEof(v, r.value.0, p)
    && r.value.1 != 0 && (Missing(v, p) == ClearBits(v.zmap) + 1 ==> r.value.1 == NO_ZONE)
  }

  lemma OverrunAt(v: Volume, r: Result<(Volume, nat)>, p: Path, q: Path, last: bool)
    requires Sized(v) && Slot(p) && IsPrefix(q, p) && RanOut(q, r, last) && r.value.0.pins == v.pins && Val(v, q) == 0
    requires !last ==> Missing(v, p) > ClearBits(v.zmap) + 1
    ensures Overrun(v, r, p)
  {
    hide Val, Missing, ClearBits;
  }

  // Slots below an empty one are empty too.
  lemma MissingBelow(v: Volume, p: Path)
    requires Sized(v) && Slot(p) && |p| > 1 && !Enough(v, p[..|p| - 1])
    ensures Missing(v, p) > ClearBits(v.zmap) + 1 && !Enough(v, p)
  {
    if Val(v, p) != 0 {
      ValUpwards(v, p);
    }
  }

  lemma DirectRunsOut(v: Volume, block: nat, p: Path, r: Result<(Volume, nat)>)
    requires Tree(v) && Sized(v) && block < DIRECT_BLOCK && p == [block] && !Enough(v, p) && |v.zmap| >= ZMAP_NR * BLOCK_BITS
    requires r == Walk(Hold(v, Root), Root, block, 0, block, 1, true)
    ensures Slot(p) && Overrun(v, r, p)
  {
    hide Walk, Tree, Enough, RanOut, Overrun;
    TopRunsOut(v, block, 0, block, 1, r);
    OverrunAt(v, r, p, p, true);
  }

  // The first k slots of the path can be filled.
  lemma Reaches(v: Volume, p: Path)
    requires Tree(v) && Slot(p) && !Leaf(p) && Clean(v, p) && Enough(v, p)
    ensures Grow(v, p).Ok? && Created(v, Grow(v, p).value, p)
  {
    GrowCreates(v, p);
    hide Tree, Grow, Created, Clean, Enough;
  }

  lemma SingleRunsOut(v: Volume, b: nat, p: Path, r: Result<(Volume, nat)>)
    requires Tree(v) && Sized(v) && b < INDIRECT1_BLOCK && Single(p, b) && Clean(v, p) && !Enough(v, p)
    requires |v.zmap| >= ZMAP_NR * BLOCK_BITS && r == Walk(Hold(v, Root), Root, DIRECT_BLOCK, 1, b, 1, true)
    ensures Slot(p) && Overrun(v, r, p)
  {
    assert Layout(v);
    hide Tree, Layout, Val, Walk, Grow, Enough, Hold, Clean, Ready, Rounded, Created, Quot, Rem, RanOut, Overrun;
    Dividers(b);
    var up: Path := [DIRECT_BLOCK];
    assert p[..1] == up && IsPrefix(up, p) && IsPrefix(p, p);
    CleanUp(v, p);
    if Enough(v, up) {
      ReadyTop(v, up);
      TopRound(v, DIRECT_BLOCK, 1, b, 1);
      RoundedOn(v, up, r, 1, b, 1);
      Reaches(v, up);
      RunsOutBelow(v, Grow(v, up).value, up, p, 0, 0, 0, r);
      OverrunAt(v, r, p, p, true);
    } else {
      TopRunsOut(v, DIRECT_BLOCK, 1, b, 1, r);
      MissingBelow(v, p);
      OverrunAt(v, r, p, up, false);
    }
  }

  lemma DoubleRunsOut(v: Volume, b: nat, p: Path, r: Result<(Volume, nat)>)
    requires Tree(v) && Sized(v) && b < INDIRECT2_BLOCK && Double(p, b) && Clean(v, p) && !Enough(v, p)
    requires |v.zmap| >= ZMAP_NR * BLOCK_BITS && r == Walk(Hold(v, Root), Root, DIRECT_BLOCK + 1, 2, b, BLOCK_INDEXES, true)
    ensures Slot(p) && Overrun(v, r, p)
  {
    assert Layout(v);
    hide Tree, Layout, Val, Walk, Grow, Enough, Hold, Clean, Ready, Rounded, Created, Quot, Rem, RanOut, Overrun;
    Dividers(b);
    var i, j := p[1], p[2];
    var up: Path, mid: Path := [DIRECT_BLOCK + 1], [DIRECT_BLOCK + 1, i];
    assert p[..2] == mid && mid[..1] == up && p[..1] == up && IsPrefix(up, p) && IsPrefix(mid, p) && IsPrefix(p, p);
    Dividers(j);
    CleanUp(v, p);
    CleanUp(v, mid);
    if Enough(v, up) {
      ReadyTop(v, up);
      TopRound(v, DIRECT_BLOCK + 1, 2, b, BLOCK_INDEXES);
      RoundedOn(v, up, r, 2, b, BLOCK_INDEXES);
      Reaches(v, up);
      if Enough(v, mid) {
        NextRound(v, mid, 1, j, 1);
        RoundedOn(v, mid, r, 1, j, 1);
        Reaches(v, mid);
        RunsOutBelow(v, Grow(v, mid).value, mid, p, 0, 0, 0, r);
        OverrunAt(v, r, p, p, true);
      } else {
        RunsOutBelow(v, Grow(v, up).value, up, mid, 1, j, 1, r);
        MissingBelow(v, p);
        OverrunAt(v, r, p, mid, false);
      }
    } else {
      MissingBelow(v, mid);
      MissingBelow(v, p);
      TopRunsOut(v, DIRECT_BLOCK + 1, 2, b, BLOCK_INDEXES, r);
      OverrunAt(v, r, p, up, false);
    }
  }

  lemma BmapRunsOut(v: Volume, block: nat)
    requires Tree(v) && Sized(v) && block < TOTAL_BLOCK && Clean(v, PathOf(block)) && !Enough(v, PathOf(block))
    requires |v.zmap| >= ZMAP_NR * BLOCK_BITS
    ensures Overrun(v, Bmap(v, block, true), PathOf(block))
  {
    BmapIs(v, block, true);
    hide *;
    var r, p := Bmap(v, block, true), PathOf(block);
    if block < DIRECT_BLOCK {
      DirectRunsOut(v, block, p, r);
    } else if block - DIRECT_BLOCK < INDIRECT1_BLOCK {
      SingleRunsOut(v, block - DIRECT_BLOCK, p, r);
    } else {
      DoubleRunsOut(v, block - DIRECT_BLOCK - INDIRECT1_BLOCK, p, r);
    }
  }

  // The zones that balloc does hand out are below 65535.
  lemma GrownNoEof(v: Volume, w: Volume, p: Path)
    requires Layout(v) && Grown(v, w, p)
    ensures !HasEof(v, w, p)
  {
    hide Val;
    forall q: Path | Slot(q) && Val(v, q) == 0 ensures Val(w, q) != NO_ZONE {
      assert Free(v, Val(w, q)) || Val(w, q) == 0;
    }
  }

  // With eight bitmap blocks create never stops, and it maps a slot of the tree to zone
  // 65535 exactly if there are fewer free zones than it needs: it uses them all up, and
  // the block itself is mapped to 65535 if its own slot is the first that goes without.
  lemma FullVolumeMapsEof(v: Volume, block: nat)
    requires Tree(v) && Sized(v) && block < TOTAL_BLOCK && Clean(v, PathOf(block)) && |v.zmap| >= ZMAP_NR * BLOCK_BITS
    ensures Bmap(v, block, true).Ok? && Sized(Bmap(v, block, true).value.0)
    ensures !Enough(v, PathOf(block)) <==> HasEof(v, Bmap(v, block, true).value.0, PathOf(block))
    ensures !Enough(v, PathOf(block)) ==> Overrun(v, Bmap(v, block, true), PathOf(block))
  {
    var p := PathOf(block);
    if Enough(v, p) {
      BmapGrows(v, block);
      GrowCreates(v, p);
      assert Layout(v);
      hide Tree, Grow, Bmap, HasEof, ClearBits, Missing, Layout;
      GrownNoEof(v, Grow(v, p).value, p);
    } else {
      BmapRunsOut(v, block);
    }
    hide Bmap, HasEof, ClearBits, Missing, Tree;
  }
}
