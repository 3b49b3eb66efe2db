/**
 The in-memory inode table of src/fs/inode.cpp over the block cache: an inode that is
 in use pins the buffer that holds its descriptor, so that buffer is never recycled.
 */
module InodeTable {
  import opened Outcome
  import opened Lists
  import opened BufferCache

  const INODE_NR := 64
  const BLOCK_INODES := 32
  const TWO32 := 0x1_0000_0000

  type uint16 = x: nat | x < 0x1_0000

  // An inode in memory: its descriptor is entry `slot` of the block in buffer `buf`.
  datatype Inode = Inode(dev: int, nr: nat, count: nat, buf: nat, slot: nat)

  // A mounted file system: the sizes in its super block, and the inodes in use, by number.
  datatype Super = Super(inodes: uint16, imapBlocks: uint16, zmapBlocks: uint16, inodeList: seq<nat>)

  datatype Fs = Fs(cache: Cache, inodes: seq<Inode>, supers: map<int, Super>)

  predicate InUse(s: Fs, i: int) {
    0 <= i < |s.inodes| && s.inodes[i].dev != EOF
  }

  function InodeBlock(sb: Super, nr: nat): nat {
    (2 + sb.imapBlocks + sb.zmapBlocks + (nr - 1) % TWO32 / BLOCK_INODES) % TWO32
  }

  // The entry of that block that is the descriptor.
  function Slot(nr: nat): nat {
    (nr - 1) % TWO32 % BLOCK_INODES
  }

  // The block that holds the descriptor of inode i.
  function KeyOf(s: Fs, i: nat): Key
    requires InUse(s, i) && s.inodes[i].dev in s.supers
  {
    Key(s.inodes[i].dev, InodeBlock(s.supers[s.inodes[i].dev], s.inodes[i].nr))
  }

  // ---------- the operations ----------

  function GetFreeInode(inodes: seq<Inode>, i: nat): (r: nat)
    requires i <= |inodes|
    ensures i <= r <= |inodes| && (r < |inodes| ==> inodes[r].dev == EOF)
    ensures forall j :: i <= j < r ==> inodes[j].dev != EOF
    decreases |inodes| - i
  {
    if i == |inodes| || inodes[i].dev == EOF then i else GetFreeInode(inodes, i + 1)
  }

  // findInode on the list of a file system; -1 if the inode is not in use.
  function FindInode(inodes: seq<Inode>, l: seq<nat>, nr: nat): (r: int)
    requires Below(l, |inodes|)
    ensures r == -1 ==> forall i :: i in l ==> inodes[i].nr != nr
    ensures r != -1 ==> 0 <= r < |inodes| && r in l && inodes[r].nr == nr
  {
    if l == [] then -1 else if inodes[l[0]].nr == nr then l[0] else FindInode(inodes, l[1..], nr)
  }

  ghost predicate Linked(s: Fs) {
    && |s.inodes| == INODE_NR && Shape(s.cache)
    && forall d :: d in s.supers ==> Below(s.supers[d].inodeList, INODE_NR)
  }

  function SetCount(s: Fs, i: nat, count: nat): Fs
    requires i < |s.inodes|
  {
    s.(inodes := s.inodes[i := s.inodes[i].(count := count)])
  }

  // Inode n goes into slot f and on the list of its file system.
  function Enter(s: Fs, f: nat, n: Inode): Fs
    requires f < |s.inodes| && n.dev in s.supers
  {
    var sb := s.supers[n.dev];
    s.(inodes := s.inodes[f := n], supers := s.supers[n.dev := sb.(inodeList := [f] + sb.inodeList)])
  }

  function Leave(s: Fs, i: nat): Fs
    requires i < |s.inodes| && s.inodes[i].dev in s.supers
  {
    var n := s.inodes[i];
    var sb := s.supers[n.dev];
    s.(inodes := s.inodes[i := n.(count := 0, dev := EOF)], supers := s.supers[n.dev := sb.(inodeList := Drop(sb.inodeList, i))])
  }

  function Iget(s: Fs, dev: int, nr: nat): (r: Result<(Fs, nat)>)
    requires Linked(s)
    ensures r.Ok? ==> r.value.1 < |r.value.0.inodes|
  {
    if dev !in s.supers then Halt(AssertFailed)
    else
      var sb := s.supers[dev];
      var i := FindInode(s.inodes, sb.inodeList, nr);
      if i != -1 then
        var n := s.inodes[i];
        Ok((s.(inodes := s.inodes[i := n.(count := (n.count + 1) % TWO32)]), i))
      else if nr > sb.inodes then Halt(AssertFailed)
      else
        var f := GetFreeInode(s.inodes, 0);
        if f == INODE_NR then Halt(TableFull)
        else if f in sb.inodeList then Halt(AssertFailed)
        else
          var (c, b) :- Bread(s.cache, Key(dev, InodeBlock(sb, nr)));
          Ok((Enter(s.(cache := c), f, Inode(dev, nr, 1, b, Slot(nr))), f))
  }

  function Iput(s: Fs, i: nat): Result<Fs>
    requires Linked(s) && i < INODE_NR
  {
    var n := s.inodes[i];
    var count := (n.count - 1) % TWO32;
    if count != 0 then Ok(SetCount(s, i, count))
    else if n.buf >= |s.cache.buffers| then Halt(Undefined)
    else
      var c :- Brelse(s.cache, n.buf);
      if n.dev !in s.supers || i !in s.supers[n.dev].inodeList || i == 0 then Halt(AssertFailed)
      else Ok(Leave(s.(cache := c), i))
  }

  // ---------- the invariant ----------

  // How many inodes in use have their descriptor in buffer b.
  function Users(inodes: seq<Inode>, b: nat): nat {
    if inodes == [] then 0
    else Users(inodes[..|inodes| - 1], b) + if inodes[|inodes| - 1].dev != EOF && inodes[|inodes| - 1].buf == b then 1 else 0
  }

  // The list of a file system holds its inodes in use, each once.
  ghost predicate Listed(s: Fs) {
    && Linked(s) && EOF !in s.supers
    && (forall d :: d in s.supers ==> NoDup(s.supers[d].inodeList))
    && (forall d, i :: d in s.supers && 0 <= i < INODE_NR ==> (i in s.supers[d].inodeList <==> s.inodes[i].dev == d))
    && (forall i :: 0 <= i < INODE_NR && s.inodes[i].dev != EOF ==> s.inodes[i].dev in s.supers)
  }

  // An inode is in the table at most once, and counts how often it was handed out.
  ghost predicate Unique(s: Fs) {
    && |s.inodes| == INODE_NR
    && (forall i, j :: 0 <= i < j < INODE_NR && s.inodes[i].dev != EOF ==>
         s.inodes[i].dev != s.inodes[j].dev || s.inodes[i].nr != s.inodes[j].nr)
    && (forall i :: 0 <= i < INODE_NR && s.inodes[i].dev != EOF ==> 0 < s.inodes[i].count < TWO32)
  }

  // The descriptor of every inode in use is where `buf` says.
  ghost predicate Located(s: Fs) {
    forall i :: 0 <= i < |s.inodes| && InUse(s, i) ==>
      && s.inodes[i].dev in s.supers && s.inodes[i].buf < |s.cache.buffers|
      && s.cache.buffers[s.inodes[i].buf].key == KeyOf(s, i)
      && s.inodes[i].slot == Slot(s.inodes[i].nr) && s.inodes[i].nr <= s.supers[s.inodes[i].dev].inodes
  }

  // The count of buffer b is the number of inodes in it, plus what is held by others:
  // the super block, the bitmaps, and code between bread and brelse.
  ghost predicate Counted(s: Fs, others: seq<nat>) {
    && |others| == |s.cache.buffers|
    && forall b :: 0 <= b < |others| ==> s.cache.buffers[b].count == others[b] + Users(s.inodes, b)
  }

  ghost predicate FsInv(s: Fs, others: seq<nat>) {
    Inv(s.cache) && Listed(s) && Unique(s) && Located(s) && Counted(s, others)
  }

  // ---------- users of a buffer ----------

  lemma {:induction false} UsersUpdate(inodes: seq<Inode>, i: nat, n: Inode, b: nat)
    requires i < |inodes|
    ensures Users(inodes[i := n], b) ==
      Users(inodes, b) + (if n.dev != EOF && n.buf == b then 1 else 0)
      - (if inodes[i].dev != EOF && inodes[i].buf == b then 1 else 0)
  {
    var m := |inodes| - 1;
    if i == m {
      assert inodes[i := n][..m] == inodes[..m];
    } else {
      UsersUpdate(inodes[..m], i, n, b);
      assert inodes[i := n][..m] == inodes[..m][i := n];
    }
  }

  lemma {:induction false} UserCounts(inodes: seq<Inode>, i: nat)
    requires i < |inodes| && inodes[i].dev != EOF
    ensures Users(inodes, inodes[i].buf) > 0
  {
    if i < |inodes| - 1 {
      UserCounts(inodes[..|inodes| - 1], i);
    }
  }

  // An inode in use is in a buffer that is in use.
  lemma Pinned(s: Fs, others: seq<nat>, i: nat)
    requires FsInv(s, others) && InUse(s, i)
    ensures s.inodes[i].buf < |s.cache.buffers| && s.cache.buffers[s.inodes[i].buf].count > 0
  {
    UserCounts(s.inodes, i);
  }

  // ---------- reads and releases by others ----------

  function Plus(others: seq<nat>, b: nat): (r: seq<nat>)
    requires b <= |others|
    ensures |r| == if b < |others| then |others| else |others| + 1
    ensures forall j :: 0 <= j < |r| ==> r[j] == (if j < |others| then others[j] else 0) + (if j == b then 1 else 0)
  {
    if b < |others| then others[b := others[b] + 1] else others + [1]
  }

  lemma NewUnused(s: Fs, b: nat, m: nat)
    requires |s.cache.buffers| <= b && Located(s) && m <= |s.inodes|
    ensures Users(s.inodes[..m], b) == 0
  {
    if m > 0 {
      NewUnused(s, b, m - 1);
      assert s.inodes[..m][..m - 1] == s.inodes[..m - 1];
      assert !(InUse(s, m - 1) && s.inodes[m - 1].buf == b);
    }
  }

  // Whoever reads a block, the descriptors of the inodes in use stay where they are.
  lemma ReadKeepsInodes(s: Fs, others: seq<nat>, k: Key)
    requires FsInv(s, others) && Bread(s.cache, k).Ok?
    ensures var (c, b) := Bread(s.cache, k).value;
      && b <= |others| && FsInv(s.(cache := c), Plus(others, b)) && SameContent(s.cache, c)
      && c.buffers[b].key == k && (b == |others| ==> Users(s.inodes, b) == 0)
  {
    hide Bread, Listed, Unique, SameContent;
    BreadKeeps(s.cache, k);
    var (c, b) := Bread(s.cache, k).value;
    if b == |others| {
      NewUnused(s, b, |s.inodes|);
      assert s.inodes[..|s.inodes|] == s.inodes;
    }
    var r := s.(cache := c);
    assert OneEach(c) && Shape(c);
    hide Inv, OneEach, Shape;
    forall i | 0 <= i < |r.inodes| && InUse(r, i)
      ensures r.inodes[i].buf < |c.buffers| && c.buffers[r.inodes[i].buf].key == KeyOf(s, i)
    {
      assert InUse(s, i);
      Pinned(s, others, i);
    }
    ReadCounts(s, others, k, c, b);
    assert Listed(r) && Unique(r) by {
      ListedElsewhere(s, r);
    }
    assert Located(r);
  }

  lemma ListedElsewhere(s: Fs, r: Fs)
    requires Listed(s) && Unique(s) && r.inodes == s.inodes && r.supers == s.supers && Shape(r.cache)
    ensures Listed(r) && Unique(r)
  {
  }

  lemma ReadCounts(s: Fs, others: seq<nat>, k: Key, c: Cache, b: nat)
    requires Inv(s.cache) && Counted(s, others) && ReadStep(s.cache, k, c, b) && OneEach(c)
    requires b == |others| ==> Users(s.inodes, b) == 0
    ensures b <= |others| && Counted(s.(cache := c), Plus(others, b))
  {
    hide SameContent, Content, Users;
    CachedIsAt(s.cache, k, c, b);
  }

  // The count of the buffer that bread returns has gone up by one, from 0 if it is new.
  lemma CachedIsAt(c: Cache, k: Key, r: Cache, b: nat)
    requires Inv(c) && ReadStep(c, k, r, b) && OneEach(r)
    ensures r.buffers[b].count == 1 + if b < |c.buffers| then c.buffers[b].count else 0
  {
    hide SameContent, Content;
    if b < |c.buffers| && c.buffers[b].count > 0 {
      CachedIs(c, b);
    } else {
      var j := Cached(c.buffers, k);
      if j != -1 {
        assert r.buffers[j].key == k;
      }
    }
  }

  lemma ReleaseKeepsInodes(s: Fs, others: seq<nat>, b: nat)
    requires FsInv(s, others) && b < |others| && others[b] > 0
    ensures Brelse(s.cache, b).Ok?
    ensures FsInv(s.(cache := Brelse(s.cache, b).value), others[b := others[b] - 1])
    ensures SameContent(s.cache, Brelse(s.cache, b).value)
  {
    hide Brelse, Listed, Unique, SameContent;
    BrelseKeeps(s.cache, b);
    var c := Brelse(s.cache, b).value;
    var r := s.(cache := c);
    assert Shape(c);
    hide Inv, Shape;
    forall j | 0 <= j < |others| ensures c.buffers[j].key == s.cache.buffers[j].key {
    }
    forall i | 0 <= i < |r.inodes| && InUse(r, i)
      ensures r.inodes[i].buf < |c.buffers| && c.buffers[r.inodes[i].buf].key == KeyOf(s, i)
    {
      assert InUse(s, i);
    }
    ListedElsewhere(s, r);
  }

  // ---------- iget ----------

  lemma InodeAt(s: Fs, dev: int, nr: nat, i: nat)
    requires Listed(s) && Unique(s) && dev in s.supers && InUse(s, i) && s.inodes[i].dev == dev && s.inodes[i].nr == nr
    ensures FindInode(s.inodes, s.supers[dev].inodeList, nr) == i
  {
    assert i in s.supers[dev].inodeList;
    var r := FindInode(s.inodes, s.supers[dev].inodeList, nr);
    assert r != -1;
  }

  lemma AgainKeeps(s: Fs, others: seq<nat>, i: nat, count: nat)
    requires FsInv(s, others) && InUse(s, i) && 0 < count < TWO32
    ensures FsInv(SetCount(s, i, count), others)
  {
    hide Inv;
    var n := s.inodes[i].(count := count);
    var r := SetCount(s, i, count);
    forall b ensures Users(r.inodes, b) == Users(s.inodes, b) {
      UsersUpdate(s.inodes, i, n, b);
    }
    hide Users;
    assert forall j: nat :: InUse(r, j) == InUse(s, j);
  }

  lemma EnterListed(s: Fs, f: nat, n: Inode)
    requires Listed(s) && f < INODE_NR && s.inodes[f].dev == EOF && n.dev in s.supers
    ensures Listed(Enter(s, f, n))
  {
    hide Inv, Users;
    var l := s.supers[n.dev].inodeList;
    assert f !in l;
    assert NoDup([f] + l);
    hide NoDup;
    var r := Enter(s, f, n);
    forall d, i | d in r.supers && 0 <= i < INODE_NR ensures i in r.supers[d].inodeList <==> r.inodes[i].dev == d {
      assert d != n.dev ==> r.supers[d] == s.supers[d];
    }
  }

  // An inode enters the table: slot f, in buffer b, which was read for it.
  lemma EnterLocated(s: Fs, f: nat, n: Inode)
    requires Located(s) && Unique(s) && f < INODE_NR && s.inodes[f].dev == EOF && n.dev in s.supers && 0 < n.count < TWO32
    requires forall i :: 0 <= i < INODE_NR && s.inodes[i].dev == n.dev ==> s.inodes[i].nr != n.nr
    requires n.buf < |s.cache.buffers| && s.cache.buffers[n.buf].key == Key(n.dev, InodeBlock(s.supers[n.dev], n.nr))
    requires n.slot == Slot(n.nr) && n.nr <= s.supers[n.dev].inodes
    ensures Located(Enter(s, f, n)) && Unique(Enter(s, f, n))
  {
    var r := Enter(s, f, n);
    forall i | 0 <= i < |r.inodes| && InUse(r, i)
      ensures r.inodes[i].dev in r.supers && r.inodes[i].buf < |r.cache.buffers| && r.cache.buffers[r.inodes[i].buf].key == KeyOf(r, i)
    {
      if i != f {
        assert InUse(s, i);
      }
    }
  }

  lemma EnterKeeps(s: Fs, others: seq<nat>, f: nat, n: Inode)
    requires FsInv(s, others) && f < INODE_NR && s.inodes[f].dev == EOF && n.dev in s.supers && n.count == 1
    requires forall i :: 0 <= i < INODE_NR && s.inodes[i].dev == n.dev ==> s.inodes[i].nr != n.nr
    requires n.buf < |others| && others[n.buf] > 0
    requires s.cache.buffers[n.buf].key == Key(n.dev, InodeBlock(s.supers[n.dev], n.nr))
    requires n.slot == Slot(n.nr) && n.nr <= s.supers[n.dev].inodes
    ensures FsInv(Enter(s, f, n), others[n.buf := others[n.buf] - 1])
  {
    assert n.buf < |s.cache.buffers|;
    EnterListed(s, f, n);
    EnterLocated(s, f, n);
    hide Inv, Listed, Located, InodeBlock;
    forall b ensures Users(Enter(s, f, n).inodes, b) == Users(s.inodes, b) + if b == n.buf then 1 else 0 {
      UsersUpdate(s.inodes, f, n, b);
    }
    hide Users, Unique;
  }

  function Grown(others: seq<nat>, n: nat): (r: seq<nat>)
    requires |others| <= n
    ensures |r| == n
  {
    others + seq(n - |others|, _ => 0)
  }

  // No inode but i has changed, and what is in the blocks has not.
  ghost predicate OnlyInode(s: Fs, r: Fs, i: nat) {
    && (forall d :: d in s.supers ==> d in r.supers && r.supers[d] == s.supers[d].(inodeList := r.supers[d].inodeList))
    && SameContent(s.cache, r.cache) && |r.inodes| == |s.inodes|
    && forall j :: 0 <= j < |s.inodes| && j != i ==> r.inodes[j] == s.inodes[j]
  }

  lemma GetIs(s: Fs, dev: int, nr: nat)
    requires Linked(s) && dev in s.supers
    ensures var i, f, k := FindInode(s.inodes, s.supers[dev].inodeList, nr), GetFreeInode(s.inodes, 0), Key(dev, InodeBlock(s.supers[dev], nr));
      Iget(s, dev, nr) ==
        if i != -1 then Ok((SetCount(s, i, (s.inodes[i].count + 1) % TWO32), i))
        else if nr > s.supers[dev].inodes then Halt(AssertFailed)
        else if f == INODE_NR then Halt(TableFull)
        else if f in s.supers[dev].inodeList then Halt(AssertFailed)
        else if Bread(s.cache, k).Halt? then Halt(Bread(s.cache, k).why)
        else Ok((Enter(s.(cache := Bread(s.cache, k).value.0), f, Inode(dev, nr, 1, Bread(s.cache, k).value.1, Slot(nr))), f))
  {
  }

  // iget of an inode that is in use counts it once more.
  lemma IgetAgain(s: Fs, others: seq<nat>, i: nat)
    requires FsInv(s, others) && InUse(s, i) && s.inodes[i].count + 1 < TWO32
    ensures Iget(s, s.inodes[i].dev, s.inodes[i].nr) == Ok((SetCount(s, i, s.inodes[i].count + 1), i))
    ensures FsInv(SetCount(s, i, s.inodes[i].count + 1), others)
  {
    hide Inv, Located, Counted, Iget;
    assert Linked(s);
    GetIs(s, s.inodes[i].dev, s.inodes[i].nr);
    InodeAt(s, s.inodes[i].dev, s.inodes[i].nr, i);
    AgainKeeps(s, others, i, s.inodes[i].count + 1);
  }

  // iget of another inode reads its block and enters it.  The asserts that can fail
  // are about the arguments, never about the tables.
  lemma IgetEnters(s: Fs, others: seq<nat>, dev: int, nr: nat)
    requires FsInv(s, others) && dev in s.supers
    requires forall i :: 0 <= i < INODE_NR && s.inodes[i].dev == dev ==> s.inodes[i].nr != nr
    ensures Iget(s, dev, nr) == Halt(AssertFailed) <==> nr > s.supers[dev].inodes
    ensures Iget(s, dev, nr) == Halt(TableFull) <==>
      nr <= s.supers[dev].inodes && forall j :: 0 <= j < INODE_NR ==> s.inodes[j].dev != EOF
    ensures Iget(s, dev, nr).Halt? ==> Iget(s, dev, nr).why in {AssertFailed, TableFull} || AllHeld(s.cache)
    ensures Iget(s, dev, nr).Ok? ==> var (t, f) := Iget(s, dev, nr).value;
        && !InUse(s, f) && (forall j :: 0 <= j < f ==> InUse(s, j)) && OnlyInode(s, t, f)
        && t.inodes[f].dev == dev && t.inodes[f].nr == nr && t.inodes[f].count == 1
        && t.inodes[f].buf < |t.cache.buffers| && DescribedBy(s.supers[dev], t.inodes[f], t.cache.buffers[t.inodes[f].buf].key)
        && |others| <= |t.cache.buffers| && FsInv(t, Grown(others, |t.cache.buffers|))
  {
    hide Bread, Inv, SameContent, InodeBlock, Iget, Located, Counted, Enter, Listed, Unique, Shape, OnlyInode, DescribedBy, Slot;
    NewIget(s, others, dev, nr);
    var f, k := GetFreeInode(s.inodes, 0), Key(dev, InodeBlock(s.supers[dev], nr));
    BreadKeeps(s.cache, k);
    if nr <= s.supers[dev].inodes && f < INODE_NR && Bread(s.cache, k).Ok? {
      EnterGrown(s, others, dev, nr, f);
      var n := Inode(dev, nr, 1, Bread(s.cache, k).value.1, Slot(nr));
      EnterOnly(s.(cache := Bread(s.cache, k).value.0), f, n);
      BlockDescribes(s.supers[dev], n);
    }
  }

  // iget of an inode that is not in the table.
  lemma NewIget(s: Fs, others: seq<nat>, dev: int, nr: nat)
    requires FsInv(s, others) && dev in s.supers
    requires forall i :: 0 <= i < INODE_NR && s.inodes[i].dev == dev ==> s.inodes[i].nr != nr
    ensures |s.inodes| == INODE_NR && Linked(s) && Shape(s.cache) && Inv(s.cache)
    ensures var f, k := GetFreeInode(s.inodes, 0), Key(dev, InodeBlock(s.supers[dev], nr));
      && (f < INODE_NR ==> s.inodes[f].dev == EOF && !InUse(s, f))
      && (f == INODE_NR <==> forall j :: 0 <= j < INODE_NR ==> s.inodes[j].dev != EOF) && f <= INODE_NR
      && Iget(s, dev, nr) ==
           if nr > s.supers[dev].inodes then Halt(AssertFailed)
           else if f == INODE_NR then Halt(TableFull)
           else
             var r := Bread(s.cache, k);
             if r.Halt? then Halt(r.why) else Ok((Enter(s.(cache := r.value.0), f, Inode(dev, nr, 1, r.value.1, Slot(nr))), f))
  {
    GetIs(s, dev, nr);
    var sb := s.supers[dev];
    var f := GetFreeInode(s.inodes, 0);
    assert f < INODE_NR ==> f !in sb.inodeList;
    assert forall j :: j in sb.inodeList ==> s.inodes[j].dev == dev;
    hide Bread, Inv, InodeBlock, Enter;
  }

  lemma EnterGrown(s: Fs, others: seq<nat>, dev: int, nr: nat, f: nat)
    requires FsInv(s, others) && dev in s.supers && f < INODE_NR && s.inodes[f].dev == EOF
    requires forall i :: 0 <= i < INODE_NR && s.inodes[i].dev == dev ==> s.inodes[i].nr != nr
    requires nr <= s.supers[dev].inodes && Bread(s.cache, Key(dev, InodeBlock(s.supers[dev], nr))).Ok?
    ensures var (c, b) := Bread(s.cache, Key(dev, InodeBlock(s.supers[dev], nr))).value;
      var t := Enter(s.(cache := c), f, Inode(dev, nr, 1, b, Slot(nr)));
      && OnlyInode(s, t, f) && |others| <= |c.buffers| && FsInv(t, Grown(others, |c.buffers|))
      && b < |c.buffers| && c.buffers[b].key == Key(dev, InodeBlock(s.supers[dev], nr))
  {
    hide Bread, Inv, SameContent, InodeBlock, FsInv, Enter, Listed, Unique, Located, Counted, Shape;
    var k := Key(dev, InodeBlock(s.supers[dev], nr));
    ReadKeepsInodes(s, others, k);
    GrownSame(s, others);
    var (c, b) := Bread(s.cache, k).value;
    var o := Plus(others, b);
    GrownSame(s.(cache := c), o);
    EnterKeeps(s.(cache := c), o, f, Inode(dev, nr, 1, b, Slot(nr)));
    assert o[b := o[b] - 1] == Grown(others, |c.buffers|);
    EnterOnly(s.(cache := c), f, Inode(dev, nr, 1, b, Slot(nr)));
  }

  lemma EnterOnly(s: Fs, f: nat, n: Inode)
    requires f < |s.inodes| && n.dev in s.supers
    ensures var r := Enter(s, f, n);
      && r.cache == s.cache && r.inodes == s.inodes[f := n]
      && forall d :: d in s.supers ==> d in r.supers && r.supers[d] == s.supers[d].(inodeList := r.supers[d].inodeList)
  {
  }

  // ---------- where descriptors are ----------

  // The blocks that readSuper reads: the super block, the inode bitmap, the zone bitmap.
  function SuperReads(sb: Super): seq<nat> {
    [1] + seq(sb.imapBlocks, i => 2 + i) + seq(sb.zmapBlocks, i => 2 + sb.imapBlocks + i)
  }

  // Inode nr, from 1 on, is entry nr - 1 of the array of descriptors behind them.
  ghost predicate DescribedBy(sb: Super, n: Inode, k: Key) {
    && k.dev == n.dev && 0 <= n.slot < 32
    && (n.nr >= 1 ==> k.block > 1 + sb.imapBlocks + sb.zmapBlocks && (k.block - 2 - sb.imapBlocks - sb.zmapBlocks) * 32 + n.slot == n.nr - 1)
    && (n.nr == 0 ==> k.block == 2 + sb.imapBlocks + sb.zmapBlocks + 0x7FF_FFFF && n.slot == 31)
  }

  lemma BlockDescribes(sb: Super, n: Inode)
    requires n.nr <= sb.inodes && n.slot == Slot(n.nr)
    ensures DescribedBy(sb, n, Key(n.dev, InodeBlock(sb, n.nr)))
  {
  }

  // The array of descriptors begins right behind what readSuper reads, and nothing that
  // it reads, nor the boot block, holds a descriptor.
  lemma DescriptorsBehindBitmaps(sb: Super, n: Inode, k: Key)
    requires DescribedBy(sb, n, k)
    ensures k.block !in SuperReads(sb) && k.block != 0
    ensures var l := SuperReads(sb); 1 <= n.nr <= 32 ==> k.block == l[|l| - 1] + 1
  {
  }

  // In use: every inode has a descriptor of its own, at the place that its number says,
  // in a buffer that is pinned.
  lemma DescriptorsApart(s: Fs, others: seq<nat>, i: nat, j: nat)
    requires FsInv(s, others) && InUse(s, i) && InUse(s, j)
    ensures var n := s.inodes[i];
      && n.dev in s.supers && n.buf < |s.cache.buffers| && s.cache.buffers[n.buf].count > 0
      && DescribedBy(s.supers[n.dev], n, s.cache.buffers[n.buf].key)
    ensures i != j ==> s.inodes[i].buf != s.inodes[j].buf || s.inodes[i].slot != s.inodes[j].slot
  {
    Pinned(s, others, i);
    hide Inv, Listed, Counted, InodeBlock, Slot, DescribedBy;
    BlockDescribes(s.supers[s.inodes[i].dev], s.inodes[i]);
    BlockDescribes(s.supers[s.inodes[j].dev], s.inodes[j]);
    if i != j && s.inodes[i].buf == s.inodes[j].buf && s.inodes[i].slot == s.inodes[j].slot {
      SameNumber(s.supers[s.inodes[i].dev], s.inodes[i], s.inodes[j], s.cache.buffers[s.inodes[i].buf].key);
    }
  }

  lemma SameNumber(sb: Super, n: Inode, m: Inode, k: Key)
    requires DescribedBy(sb, n, k) && DescribedBy(sb, m, k) && n.slot == m.slot && n.nr <= 0xFFFF && m.nr <= 0xFFFF
    ensures n.dev == m.dev && n.nr == m.nr
  {
  }

  // ---------- iput ----------

  lemma LeaveListed(s: Fs, i: nat)
    requires Listed(s) && InUse(s, i)
    ensures Listed(Leave(s, i))
  {
    var l := s.supers[s.inodes[i].dev].inodeList;
    DropNoDup(l, i);
    DropBelow(l, i, INODE_NR);
    hide NoDup, Below;
    var r := Leave(s, i);
    forall d, j | d in r.supers && 0 <= j < INODE_NR ensures j in r.supers[d].inodeList <==> r.inodes[j].dev == d {
      assert d != s.inodes[i].dev ==> r.supers[d] == s.supers[d];
    }
  }

  lemma LeaveLocated(s: Fs, i: nat)
    requires Located(s) && Unique(s) && InUse(s, i)
    ensures Located(Leave(s, i)) && Unique(Leave(s, i))
  {
    var r := Leave(s, i);
    forall j | 0 <= j < |r.inodes| && InUse(r, j)
      ensures r.inodes[j].dev in r.supers && r.inodes[j].buf < |r.cache.buffers| && r.cache.buffers[r.inodes[j].buf].key == KeyOf(r, j)
    {
      assert InUse(s, j);
    }
  }

  lemma LeaveKeeps(s: Fs, others: seq<nat>, i: nat)
    requires FsInv(s, others) && InUse(s, i)
    ensures s.inodes[i].buf < |others|
    ensures FsInv(Leave(s, i), others[s.inodes[i].buf := others[s.inodes[i].buf] + 1])
  {
    var n := s.inodes[i];
    LeaveListed(s, i);
    LeaveLocated(s, i);
    assert n.dev in s.supers && n.buf < |s.cache.buffers|;
    hide Inv, Listed, Located;
    forall b ensures Users(Leave(s, i).inodes, b) == Users(s.inodes, b) - if b == n.buf then 1 else 0 {
      UsersUpdate(s.inodes, i, n.(count := 0, dev := EOF), b);
    }
    hide Users, Unique;
  }

  lemma PutIs(s: Fs, i: nat)
    requires Linked(s) && i < INODE_NR
    ensures var n := s.inodes[i];
      && (n.count > 1 && n.count < TWO32 ==> Iput(s, i) == Ok(SetCount(s, i, n.count - 1)))
      && (n.count == 1 && n.buf < |s.cache.buffers| && n.dev in s.supers && i in s.supers[n.dev].inodeList && Brelse(s.cache, n.buf).Ok? ==>
            Iput(s, i) == if i == 0 then Halt(AssertFailed) else Ok(Leave(s.(cache := Brelse(s.cache, n.buf).value), i)))
  {
  }

  // The last iput releases the buffer and empties the slot; for slot 0, the root, that
  // is a failing assert.
  lemma IputKeeps(s: Fs, others: seq<nat>, i: nat)
    requires FsInv(s, others) && InUse(s, i)
    ensures Iput(s, i).Halt? <==> i == 0 && s.inodes[i].count == 1
    ensures Iput(s, i).Ok? ==> var r := Iput(s, i).value;
      && FsInv(r, others) && OnlyInode(s, r, i)
      && r.inodes[i] == s.inodes[i].(count := s.inodes[i].count - 1, dev := if s.inodes[i].count == 1 then EOF else s.inodes[i].dev)
  {
    PutIs(s, i);
    if s.inodes[i].count > 1 {
      AgainKeeps(s, others, i, s.inodes[i].count - 1);
    } else {
      LastPut(s, others, i);
      assert i in s.supers[s.inodes[i].dev].inodeList;
    }
    hide Brelse, Inv, SameContent, Located, Counted, Iput;
  }

  lemma LastPut(s: Fs, others: seq<nat>, i: nat)
    requires FsInv(s, others) && InUse(s, i)
    ensures s.inodes[i].buf < |s.cache.buffers| && Brelse(s.cache, s.inodes[i].buf).Ok?
    ensures var r := Leave(s.(cache := Brelse(s.cache, s.inodes[i].buf).value), i);
      FsInv(r, others) && OnlyInode(s, r, i)
  {
    var b := s.inodes[i].buf;
    LeaveKeeps(s, others, i);
    var o := others[b := others[b] + 1];
    ReleaseKeepsInodes(Leave(s, i), o, b);
    hide FsInv, Brelse, SameContent, Inv;
    assert o[b := o[b] - 1] == others;
    assert Leave(s, i).(cache := Brelse(s.cache, b).value) == Leave(s.(cache := Brelse(s.cache, b).value), i);
  }

  // iput undoes iget of an inode that was not in use: the same inodes are in use, with
  // the same counts, every pin held by others and the contents of all blocks are as
  // before.
  lemma IputUndoesIget(s: Fs, others: seq<nat>, dev: int, nr: nat)
    requires FsInv(s, others) && dev in s.supers && InUse(s, 0) && Iget(s, dev, nr).Ok?
    requires forall i :: 0 <= i < INODE_NR && s.inodes[i].dev == dev ==> s.inodes[i].nr != nr
    ensures var (t, i) := Iget(s, dev, nr).value;
      && i < INODE_NR && Linked(t) && Iput(t, i).Ok?
      && var r := Iput(t, i).value;
      && SameContent(s.cache, r.cache) && |others| <= |r.cache.buffers| && FsInv(r, Grown(others, |r.cache.buffers|))
      && (forall j :: 0 <= j < INODE_NR ==> InUse(r, j) == InUse(s, j) && (InUse(s, j) ==> r.inodes[j] == s.inodes[j]))
  {
    hide Iget, Iput, Inv, Located, Counted, SameContent;
    IgetEnters(s, others, dev, nr);
    var (t, i) := Iget(s, dev, nr).value;
    var o := Grown(others, |t.cache.buffers|);
    IputKeeps(t, o, i);
    SameTwice(s.cache, t.cache, Iput(t, i).value.cache);
    GrownSame(Iput(t, i).value, o);
  }

  lemma SameTwice(a: Cache, b: Cache, c: Cache)
    requires SameContent(a, b) && SameContent(b, c)
    ensures SameContent(a, c)
  {
  }

  lemma GrownSame(r: Fs, others: seq<nat>)
    requires FsInv(r, others)
    ensures |others| == |r.cache.buffers| && |r.inodes| == INODE_NR && Shape(r.cache)
  {
  }

  // ---------- runs ----------

  // What may happen to the inodes and blocks of the mounted file systems: inodes are
  // got, written through and put; other code reads, writes and releases blocks.
  datatype Event = Get(dev: int, nr: nat) | Put(i: nat) | WriteInode(i: nat, data: Data)
                 | Read(k: Key) | Write(b: nat, data: Data) | Release(b: nat)

  ghost predicate MayGet(s: Fs, dev: int) {
    Linked(s) && dev in s.supers && forall i :: 0 <= i < INODE_NR ==> s.inodes[i].count + 1 < TWO32
  }

  ghost function Step(s: Fs, others: seq<nat>, e: Event): (r: Result<(Fs, seq<nat>)>) {
    match e
    case Get(dev, nr) =>
      if !MayGet(s, dev) then Halt(Undefined)
      else
        var (t, i) :- Iget(s, dev, nr);
        if |others| <= |t.cache.buffers| then Ok((t, Grown(others, |t.cache.buffers|))) else Halt(Undefined)
    case Put(i) =>
      if !InUse(s, i) || !Linked(s) then Halt(Undefined)
      else var t :- Iput(s, i); Ok((t, others))
    case WriteInode(i, data) =>
      if InUse(s, i) && s.inodes[i].buf < |s.cache.buffers|
      then Ok((s.(cache := Modify(s.cache, s.inodes[i].buf, data)), others)) else Halt(Undefined)
    case Read(k) =>
      if !Shape(s.cache) then Halt(Undefined)
      else
        var (c, b) :- Bread(s.cache, k);
        if b <= |others| then Ok((s.(cache := c), Plus(others, b))) else Halt(Undefined)
    case Write(b, data) =>
      if b < |others| && b < |s.cache.buffers| && others[b] > 0 then Ok((s.(cache := Modify(s.cache, b, data)), others)) else Halt(Undefined)
    case Release(b) =>
      if b < |others| && b < |s.cache.buffers| && others[b] > 0 then
        var c :- Brelse(s.cache, b);
        Ok((s.(cache := c), others[b := others[b] - 1]))
      else Halt(Undefined)
  }

  // What is the same of an inode that stays in use.
  ghost predicate Stays(s: Fs, t: Fs) {
    && (forall d :: d in s.supers ==> d in t.supers && t.supers[d] == s.supers[d].(inodeList := t.supers[d].inodeList))
    && forall i :: 0 <= i < INODE_NR && InUse(s, i) && InUse(t, i) ==>
      s.inodes[i].dev == t.inodes[i].dev && s.inodes[i].nr == t.inodes[i].nr && s.inodes[i].buf == t.inodes[i].buf && s.inodes[i].slot == t.inodes[i].slot
  }

  lemma ModifyKeepsInodes(s: Fs, others: seq<nat>, b: nat, data: Data)
    requires FsInv(s, others) && b < |s.cache.buffers| && s.cache.buffers[b].count > 0
    ensures FsInv(s.(cache := Modify(s.cache, b, data)), others)
  {
    hide Listed, Unique, Modify;
    ModifyKeeps(s.cache, b, data);
    var c := Modify(s.cache, b, data);
    var r := s.(cache := c);
    assert Shape(c);
    hide Inv, Shape, Content;
    forall i | 0 <= i < |r.inodes| && InUse(r, i)
      ensures r.inodes[i].buf < |c.buffers| && c.buffers[r.inodes[i].buf].key == KeyOf(s, i)
    {
      assert InUse(s, i);
    }
    ListedElsewhere(s, r);
  }

  lemma GetAgainStep(s: Fs, others: seq<nat>, i: nat)
    requires FsInv(s, others) && InUse(s, i) && MayGet(s, s.inodes[i].dev)
    ensures var r := Step(s, others, Get(s.inodes[i].dev, s.inodes[i].nr));
      r.Ok? && FsInv(r.value.0, r.value.1) && Stays(s, r.value.0)
  {
    IgetAgain(s, others, i);
    GrownSame(s, others);
    hide FsInv, Iget;
    assert Grown(others, |others|) == others;
  }

  lemma GetNewStep(s: Fs, others: seq<nat>, dev: int, nr: nat)
    requires FsInv(s, others) && MayGet(s, dev) && Step(s, others, Get(dev, nr)).Ok?
    requires forall i :: 0 <= i < INODE_NR && s.inodes[i].dev == dev ==> s.inodes[i].nr != nr
    ensures var (t, o) := Step(s, others, Get(dev, nr)).value; FsInv(t, o) && Stays(s, t)
  {
    hide Inv, Listed, Unique, Located, Counted, FsInv, Iget;
    IgetEnters(s, others, dev, nr);
  }

  lemma GetStep(s: Fs, others: seq<nat>, dev: int, nr: nat)
    requires FsInv(s, others) && Step(s, others, Get(dev, nr)).Ok?
    ensures var (t, o) := Step(s, others, Get(dev, nr)).value; FsInv(t, o) && Stays(s, t)
  {
    hide FsInv, Iget, Stays;
    assert |s.inodes| == INODE_NR;
    if i: nat :| i < INODE_NR && s.inodes[i].dev == dev && s.inodes[i].nr == nr {
      assert InUse(s, i) by {
        DevNotEof(s, others, dev);
      }
      GetAgainStep(s, others, i);
    } else {
      GetNewStep(s, others, dev, nr);
    }
  }

  lemma DevNotEof(s: Fs, others: seq<nat>, dev: int)
    requires FsInv(s, others) && dev in s.supers
    ensures dev != EOF
  {
  }

  // No step moves the descriptor of an inode that stays in use: its buffer is the same
  // one, and still holds its block.
  lemma StepKeepsInodes(s: Fs, others: seq<nat>, e: Event)
    requires FsInv(s, others) && Step(s, others, e).Ok?
    ensures var (t, o) := Step(s, others, e).value; FsInv(t, o) && Stays(s, t)
  {
    hide FsInv, Stays, Iput, Bread, Brelse, Iget;
    match e
    case Get(dev, nr) => GetStep(s, others, dev, nr);
    case Put(i) => IputKeeps(s, others, i); StaysOnly(s, Iput(s, i).value, i);
    case WriteInode(i, data) => Pinned(s, others, i); ModifyKeepsInodes(s, others, s.inodes[i].buf, data); StaysSame(s, Modify(s.cache, s.inodes[i].buf, data));
    case Read(k) => ReadKeepsInodes(s, others, k); StaysSame(s, Bread(s.cache, k).value.0);
    case Write(b, data) => Held(s, others, b); ModifyKeepsInodes(s, others, b, data); StaysSame(s, Modify(s.cache, b, data));
    case Release(b) => ReleaseKeepsInodes(s, others, b); StaysSame(s, Brelse(s.cache, b).value);
  }

  lemma StaysSame(s: Fs, c: Cache)
    ensures Stays(s, s.(cache := c))
  {
  }

  lemma StaysOnly(s: Fs, t: Fs, i: nat)
    requires |s.inodes| == INODE_NR && i < INODE_NR && OnlyInode(s, t, i)
    requires s.inodes[i].nr == t.inodes[i].nr && s.inodes[i].buf == t.inodes[i].buf && s.inodes[i].slot == t.inodes[i].slot && (t.inodes[i].dev == s.inodes[i].dev || t.inodes[i].dev == EOF)
    ensures Stays(s, t)
  {
  }

  lemma Held(s: Fs, others: seq<nat>, b: nat)
    requires FsInv(s, others) && b < |others| && others[b] > 0
    ensures s.cache.buffers[b].count > 0
  {
  }

  ghost function Run(s: Fs, others: seq<nat>, es: seq<Event>): Result<(Fs, seq<nat>)>
    decreases |es|
  {
    if es == [] then Ok((s, others)) else var (t, o) :- Step(s, others, es[0]); Run(t, o, es[1..])
  }

  // Inode i is never put for the last time during the run.
  ghost predicate UsedThroughout(s: Fs, others: seq<nat>, es: seq<Event>, i: nat)
    decreases |es|
  {
    InUse(s, i) && (es != [] && Step(s, others, es[0]).Ok? ==>
      UsedThroughout(Step(s, others, es[0]).value.0, Step(s, others, es[0]).value.1, es[1..], i))
  }

  // Over any run, with any reads and evictions in between, the buffer of an inode that
  // stays in use is the same one, and holds the block of its descriptor.
  lemma {:induction false} DescriptorStays(s: Fs, others: seq<nat>, es: seq<Event>, i: nat)
    requires FsInv(s, others) && Run(s, others, es).Ok? && i < INODE_NR && UsedThroughout(s, others, es, i)
    ensures var (t, o) := Run(s, others, es).value;
      && FsInv(t, o) && InUse(t, i)
      && t.inodes[i].dev == s.inodes[i].dev && t.inodes[i].nr == s.inodes[i].nr
      && t.inodes[i].buf == s.inodes[i].buf < |t.cache.buffers| && t.cache.buffers[s.inodes[i].buf].count > 0
      && t.inodes[i].slot == s.inodes[i].slot && s.inodes[i].dev in s.supers
      && DescribedBy(s.supers[s.inodes[i].dev], s.inodes[i], t.cache.buffers[s.inodes[i].buf].key)
    decreases |es|
  {
    hide FsInv, Step, Stays, Run, UsedThroughout, DescribedBy;
    RunNext(s, others, es, i);
    if es == [] {
      DescriptorsApart(s, others, i, i);
    } else {
      StepKeepsInodes(s, others, es[0]);
      var (t, o) := Step(s, others, es[0]).value;
      DescriptorStays(t, o, es[1..], i);
      var k := Run(s, others, es).value.0.cache.buffers[t.inodes[i].buf].key;
      SameDescriptor(s, others, t, o, i, k);
    }
  }

  lemma RunNext(s: Fs, others: seq<nat>, es: seq<Event>, i: nat)
    requires Run(s, others, es).Ok? && UsedThroughout(s, others, es, i)
    ensures InUse(s, i) && if es == [] then Run(s, others, es) == Ok((s, others)) else
      Step(s, others, es[0]).Ok? && var (t, o) := Step(s, others, es[0]).value;
      UsedThroughout(t, o, es[1..], i) && InUse(t, i) && Run(s, others, es) == Run(t, o, es[1..])
  {
    hide Step;
  }

  lemma SameDescriptor(s: Fs, others: seq<nat>, t: Fs, o: seq<nat>, i: nat, k: Key)
    requires FsInv(s, others) && FsInv(t, o) && Stays(s, t) && i < INODE_NR && InUse(s, i) && InUse(t, i)
    ensures s.inodes[i].dev in s.supers && t.inodes[i].dev in t.supers
    ensures t.inodes[i] == s.inodes[i].(count := t.inodes[i].count)
    ensures DescribedBy(t.supers[t.inodes[i].dev], t.inodes[i], k) ==> DescribedBy(s.supers[s.inodes[i].dev], s.inodes[i], k)
  {
  }
}
