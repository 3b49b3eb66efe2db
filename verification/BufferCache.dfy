/**
 The block cache of src/kernel/buffer.cpp: a hash table, a list of released buffers
 in order of release, reference counts and write-back.  bread and brelse are single
 steps; the pool hands out a fixed number of buffers.
 */
module BufferCache {
  import opened Outcome
  import opened Lists

  const HASH_COUNT := 31
  const EOF := -1

  // What a block holds; the cache only moves it.
  type Data = seq<nat>

  datatype Key = Key(dev: int, block: nat)

  // `stamp` numbers the releases of buffers; the source has no such field.  It only
  // serves to say which buffer was released longest ago.
  datatype Buffer = Buffer(key: Key, count: int, dirty: bool, valid: bool, data: Data, stamp: nat)

  // `buffers` are those taken from the pool so far; lists hold buffer numbers.
  datatype Cache = Cache(capacity: nat, buffers: seq<Buffer>, hashTable: seq<seq<nat>>, freeList: seq<nat>,
                         disk: map<Key, Data>, clock: nat)

  // A block that was never written reads as [].
  function OnDisk(disk: map<Key, Data>, k: Key): Data {
    if k in disk then disk[k] else []
  }

  // a ^ b
  function Xor(a: nat, b: nat): nat {
    if a == 0 && b == 0 then 0 else (a % 2 + b % 2) % 2 + 2 * Xor(a / 2, b / 2)
  }

  function Hash(k: Key): (h: nat)
    ensures h < HASH_COUNT
  {
    Xor(k.dev % 0x1_0000_0000, k.block) % HASH_COUNT
  }

  ghost predicate Below(l: seq<nat>, n: nat) {
    forall j :: 0 <= j < |l| ==> l[j] < n
  }

  // Every number on a list is that of a buffer.
  ghost predicate Shape(c: Cache) {
    && |c.hashTable| == HASH_COUNT && |c.buffers| <= c.capacity
    && (forall h :: 0 <= h < HASH_COUNT ==> Below(c.hashTable[h], |c.buffers|))
    && Below(c.freeList, |c.buffers|)
  }

  // ---------- the operations ----------

  function FindIn(buffers: seq<Buffer>, l: seq<nat>, k: Key): (r: int)
    requires Below(l, |buffers|)
    ensures r == -1 ==> forall i :: i in l ==> buffers[i].key != k
    ensures r != -1 ==> 0 <= r < |buffers| && r in l && buffers[r].key == k
  {
    if l == [] then -1 else if buffers[l[0]].key == k then l[0] else FindIn(buffers, l[1..], k)
  }

  function Lookup(c: Cache, k: Key): (r: int)
    requires Shape(c)
    ensures r == -1 || (0 <= r < |c.buffers| && c.buffers[r].key == k)
  {
    FindIn(c.buffers, c.hashTable[Hash(k)], k)
  }

  function HashLocate(c: Cache, i: nat): Result<Cache>
    requires i < |c.buffers| && |c.hashTable| == HASH_COUNT
  {
    var h := Hash(c.buffers[i].key);
    if i in c.hashTable[h] then Halt(AssertFailed)
    else Ok(c.(hashTable := c.hashTable[h := [i] + c.hashTable[h]]))
  }

  function HashRemove(c: Cache, i: nat): Result<Cache>
    requires i < |c.buffers| && |c.hashTable| == HASH_COUNT
  {
    var h := Hash(c.buffers[i].key);
    if i !in c.hashTable[h] then Halt(AssertFailed)
    else Ok(c.(hashTable := c.hashTable[h := Drop(c.hashTable[h], i)]))
  }

  const Fresh := Buffer(Key(EOF, 0), 0, false, false, [], 0)

  function GetFreeBuffer(c: Cache): (r: Result<(Cache, nat)>)
    requires Shape(c)
    ensures r.Ok? ==> r.value.1 < |r.value.0.buffers| && |r.value.0.hashTable| == HASH_COUNT
  {
    if |c.buffers| < c.capacity then Ok((c.(buffers := c.buffers + [Fresh]), |c.buffers|))
    else if c.freeList == [] then Halt(WouldSleep)
    else
      var i := c.freeList[|c.freeList| - 1];
      var c1 :- HashRemove(c.(freeList := c.freeList[..|c.freeList| - 1]), i);
      Ok((c1.(buffers := c1.buffers[i := c1.buffers[i].(valid := false)]), i))
  }

  function Getblk(c: Cache, k: Key): (r: Result<(Cache, nat)>)
    requires Shape(c)
    ensures r.Ok? ==> r.value.1 < |r.value.0.buffers|
  {
    var i := Lookup(c, k);
    if i != -1 then
      if c.buffers[i].valid then Ok((c.(freeList := Drop(c.freeList, i)), i)) else Halt(AssertFailed)
    else
      var (c1, i) :- GetFreeBuffer(c);
      var b := c1.buffers[i];
      if b.count != 0 || b.dirty then Halt(AssertFailed)
      else
        var c2 :- HashLocate(c1.(buffers := c1.buffers[i := b.(count := 1, key := k)]), i);
        Ok((c2, i))
  }

  function Bread(c: Cache, k: Key): (r: Result<(Cache, nat)>)
    requires Shape(c)
    ensures r.Ok? ==> r.value.1 < |r.value.0.buffers|
  {
    var (c1, i) :- Getblk(c, k);
    var b := c1.buffers[i];
    var b' := if b.valid then b.(count := b.count + 1)
              else b.(data := OnDisk(c1.disk, b.key), dirty := false, valid := true);
    Ok((c1.(buffers := c1.buffers[i := b']), i))
  }

  function Bwrite(c: Cache, i: nat): Cache
    requires i < |c.buffers|
  {
    var b := c.buffers[i];
    if !b.dirty then c
    else c.(disk := c.disk[b.key := b.data], buffers := c.buffers[i := b.(dirty := false, valid := true)])
  }

  function Brelse(c: Cache, i: nat): Result<Cache>
    requires i < |c.buffers|
  {
    var c1 := Bwrite(c, i);
    var b := c1.buffers[i];
    var c2 := c1.(buffers := c1.buffers[i := b.(count := b.count - 1)]);
    if b.count < 1 then Halt(AssertFailed)
    else if b.count > 1 then Ok(c2)
    else if i in c.freeList then Halt(AssertFailed)
    else Ok(c2.(freeList := [i] + c.freeList, clock := c.clock + 1,
                buffers := c1.buffers[i := b.(count := 0, stamp := c.clock)]))
  }

  // What a holder does to the data it holds.
  function Modify(c: Cache, i: nat, data: Data): Cache
    requires i < |c.buffers|
  {
    c.(buffers := c.buffers[i := c.buffers[i].(data := data, dirty := true)])
  }

  function Init(capacity: nat, disk: map<Key, Data>): Cache {
    Cache(capacity, [], seq(HASH_COUNT, _ => []), [], disk, 0)
  }

  // ---------- the invariant ----------

  // Each buffer is in the bucket of its key, once, and in no other.
  ghost predicate Buckets(c: Cache) {
    && Shape(c)
    && (forall h :: 0 <= h < HASH_COUNT ==> NoDup(c.hashTable[h]))
    && (forall h, i :: 0 <= h < HASH_COUNT && 0 <= i < |c.buffers| ==>
         (i in c.hashTable[h] <==> h == Hash(c.buffers[i].key)))
  }

  ghost predicate OneEach(c: Cache) {
    forall i, j :: 0 <= i < j < |c.buffers| ==> c.buffers[i].key != c.buffers[j].key
  }

  // Released buffers, and no others, are on the free list.
  ghost predicate FreeListed(c: Cache) {
    forall i :: 0 <= i < |c.buffers| ==> c.buffers[i].count >= 0 && (c.buffers[i].count == 0 <==> i in c.freeList)
  }

  // The latest release comes first.
  ghost predicate InOrder(c: Cache) {
    && Below(c.freeList, |c.buffers|) && NoDup(c.freeList)
    && (forall a :: 0 <= a < |c.freeList| ==> c.buffers[c.freeList[a]].stamp < c.clock)
    && (forall a, b :: 0 <= a < b < |c.freeList| ==> c.buffers[c.freeList[a]].stamp > c.buffers[c.freeList[b]].stamp)
  }

  ghost predicate Released(c: Cache) {
    FreeListed(c) && InOrder(c)
  }

  // A clean buffer agrees with the disk, and a released one is clean.
  ghost predicate Coherent(c: Cache) {
    forall i :: 0 <= i < |c.buffers| ==>
      && c.buffers[i].valid
      && (c.buffers[i].dirty ==> c.buffers[i].count > 0)
      && (!c.buffers[i].dirty ==> c.buffers[i].data == OnDisk(c.disk, c.buffers[i].key))
  }

  ghost predicate Inv(c: Cache) {
    Buckets(c) && OneEach(c) && Released(c) && Coherent(c)
  }

  lemma InitInv(capacity: nat, disk: map<Key, Data>)
    ensures Inv(Init(capacity, disk))
  {
  }

  // ---------- what the cache stands for ----------

  // The buffer of block k, by a search through the whole pool; -1 if there is none.
  function Cached(buffers: seq<Buffer>, k: Key): (r: int)
    ensures r == -1 ==> forall i :: 0 <= i < |buffers| ==> buffers[i].key != k
    ensures r != -1 ==> 0 <= r < |buffers| && buffers[r].key == k
  {
    if buffers == [] then -1
    else if buffers[|buffers| - 1].key == k then |buffers| - 1 else Cached(buffers[..|buffers| - 1], k)
  }

  function Content(c: Cache, k: Key): Data {
    var i := Cached(c.buffers, k);
    if i == -1 then OnDisk(c.disk, k) else c.buffers[i].data
  }

  lemma LookupFinds(c: Cache, k: Key)
    requires Inv(c)
    ensures Lookup(c, k) == Cached(c.buffers, k)
  {
    var r := Cached(c.buffers, k);
    if r != -1 {
      assert r in c.hashTable[Hash(k)];
    }
  }

  lemma CachedIs(c: Cache, i: nat)
    requires OneEach(c) && i < |c.buffers|
    ensures Cached(c.buffers, c.buffers[i].key) == i
  {
    var r := Cached(c.buffers, c.buffers[i].key);
    assert r != -1;
  }

  function Pins(c: Cache, k: Key): int {
    var i := Cached(c.buffers, k);
    if i == -1 then 0 else c.buffers[i].count
  }

  ghost predicate SameContent(c: Cache, r: Cache) {
    forall k :: Content(r, k) == Content(c, k)
  }

  // ---------- bread ----------

  // What bread of k does to a sound cache: block k is in buffer i and pinned once more,
  // and nothing that anyone else holds has moved.
  ghost predicate ReadStep(c: Cache, k: Key, r: Cache, i: nat) {
    && r.disk == c.disk && r.capacity == c.capacity && SameContent(c, r)
    && i < |r.buffers| && |c.buffers| <= |r.buffers| && |r.buffers| - (if i < |c.buffers| then 0 else 1) == |c.buffers|
    && r.buffers[i].key == k && r.buffers[i].count == Pins(c, k) + 1 && r.buffers[i].data == Content(c, k)
    && (i < |c.buffers| && c.buffers[i].count > 0 ==> c.buffers[i].key == k)
    && (forall j :: 0 <= j < |c.buffers| && j != i ==> r.buffers[j] == c.buffers[j])
  }

  function Hit(c: Cache, i: nat): Cache
    requires i < |c.buffers|
  {
    c.(freeList := Drop(c.freeList, i), buffers := c.buffers[i := c.buffers[i].(count := c.buffers[i].count + 1)])
  }

  lemma HitIs(c: Cache, i: nat)
    requires Inv(c) && i < |c.buffers|
    ensures Bread(c, c.buffers[i].key) == Ok((Hit(c, i), i))
  {
    LookupFinds(c, c.buffers[i].key);
    CachedIs(c, i);
  }

  lemma HitReleased(c: Cache, i: nat)
    requires Inv(c) && i < |c.buffers|
    ensures Released(Hit(c, i))
  {
    hide Cached, Hash, OnDisk, Buckets, OneEach;
    var r := Hit(c, i);
    DropNoDup(c.freeList, i);
    DropOrder(c, r, c.freeList, i);
  }

  lemma HitKeeps(c: Cache, i: nat)
    requires Inv(c) && i < |c.buffers|
    ensures Inv(Hit(c, i)) && ReadStep(c, c.buffers[i].key, Hit(c, i), i)
  {
    hide Cached, Hash, OnDisk;
    var r := Hit(c, i);
    HitReleased(c, i);
    CachedIs(c, i);
    assert Buckets(r) && OneEach(r) && Coherent(r);
    hide Released, Buckets, OneEach, Coherent;
    forall k ensures Content(r, k) == Content(c, k) {
      SameKeys(c.buffers, r.buffers, k);
      CachedKey(c.buffers, k);
    }
  }

  lemma {:induction false} SameKeys(a: seq<Buffer>, b: seq<Buffer>, k: Key)
    requires |a| == |b| && forall j :: 0 <= j < |a| ==> a[j].key == b[j].key
    ensures Cached(a, k) == Cached(b, k)
  {
    if a != [] {
      SameKeys(a[..|a| - 1], b[..|b| - 1], k);
    }
  }

  // Dropping a number keeps the order of release.
  lemma {:induction false} DropOrder(c: Cache, r: Cache, l: seq<nat>, i: nat)
    requires Below(l, |c.buffers|) && |r.buffers| == |c.buffers|
    requires forall j :: 0 <= j < |c.buffers| ==> r.buffers[j].stamp == c.buffers[j].stamp
    requires forall a, b :: 0 <= a < b < |l| ==> c.buffers[l[a]].stamp > c.buffers[l[b]].stamp
    requires forall a :: 0 <= a < |l| ==> c.buffers[l[a]].stamp < c.clock
    ensures var d := Drop(l, i);
      && Below(d, |r.buffers|)
      && (forall a, b :: 0 <= a < b < |d| ==> r.buffers[d[a]].stamp > r.buffers[d[b]].stamp)
      && (forall a :: 0 <= a < |d| ==> r.buffers[d[a]].stamp < c.clock)
  {
    if l != [] {
      DropOrder(c, r, l[1..], i);
      var d, t := Drop(l, i), Drop(l[1..], i);
      if l[0] != i {
        forall b | 0 <= b < |t| ensures c.buffers[l[0]].stamp > r.buffers[t[b]].stamp {
          assert t[b] in l[1..];
        }
      }
    }
  }

  // A miss fills buffer i: a new one, or the one at the end of the free list.
  function Filled(k: Key, disk: map<Key, Data>, stamp: nat): Buffer {
    Buffer(k, 1, false, true, OnDisk(disk, k), stamp)
  }

  function New(c: Cache, k: Key): Cache
    requires |c.hashTable| == HASH_COUNT
  {
    c.(buffers := c.buffers + [Filled(k, c.disk, 0)],
       hashTable := c.hashTable[Hash(k) := [|c.buffers|] + c.hashTable[Hash(k)]])
  }

  lemma NewIs(c: Cache, k: Key)
    requires Inv(c) && Cached(c.buffers, k) == -1 && |c.buffers| < c.capacity
    ensures Bread(c, k) == Ok((New(c, k), |c.buffers|))
  {
    LookupFinds(c, k);
    var i, b1 := |c.buffers|, Fresh.(count := 1, key := k);
    assert (c.buffers + [Fresh])[i := b1] == c.buffers + [b1];
    var b2 := b1.(data := OnDisk(c.disk, k), dirty := false, valid := true);
    assert (c.buffers + [b1])[i := b2] == c.buffers + [b2];
    var c1 := c.(buffers := c.buffers + [b1]);
    var c2 := c1.(hashTable := c.hashTable[Hash(k) := [i] + c.hashTable[Hash(k)]]);
    assert i !in c.hashTable[Hash(k)];
    assert HashLocate(c1, i) == Ok(c2);
    assert Getblk(c, k) == Ok((c2, i));
  }

  lemma NewKeeps(c: Cache, k: Key)
    requires Inv(c) && Cached(c.buffers, k) == -1 && |c.buffers| < c.capacity
    ensures Inv(New(c, k)) && ReadStep(c, k, New(c, k), |c.buffers|)
  {
    hide Cached, Hash, Content;
    var i, h, r := |c.buffers|, Hash(k), New(c, k);
    assert Buckets(r) by {
      assert i !in c.hashTable[h];
    }
    assert OneEach(r);
    Refill(c, r, i, k);
  }

  lemma Refill(c: Cache, r: Cache, i: nat, k: Key)
    requires FetchStep(c, r, i, k)
    ensures SameContent(c, r) && Content(c, k) == OnDisk(c.disk, k)
  {
    hide OneEach, OnDisk, Cached;
    forall x ensures Content(r, x) == Content(c, x) {
      Fetched(c, r, x, i, k);
    }
  }

  // Buffer i is new or was clean; now it holds what the disk has in block k.
  ghost predicate FetchStep(c: Cache, r: Cache, i: nat, k: Key) {
    && OneEach(c) && OneEach(r) && r.disk == c.disk && i < |r.buffers| && i <= |c.buffers|
    && |r.buffers| == (if i < |c.buffers| then |c.buffers| else |c.buffers| + 1)
    && (forall j :: 0 <= j < |c.buffers| && j != i ==> r.buffers[j] == c.buffers[j])
    && (i < |c.buffers| ==> c.buffers[i].data == OnDisk(c.disk, c.buffers[i].key))
    && r.buffers[i].key == k && r.buffers[i].data == OnDisk(c.disk, k) && Cached(c.buffers, k) == -1
  }

  lemma Fetched(c: Cache, r: Cache, x: Key, i: nat, k: Key)
    requires FetchStep(c, r, i, k)
    ensures Content(r, x) == Content(c, x)
  {
    var a, b := Cached(c.buffers, x), Cached(r.buffers, x);
    if a != -1 && a != i {
      CachedIs(r, a);
    } else if x == k {
      CachedIs(r, i);
    }
  }

  function Recycled(c: Cache, k: Key): Cache
    requires Shape(c) && c.freeList != []
  {
    var n := |c.freeList| - 1;
    var i := c.freeList[n];
    var b := c.buffers[i];
    var t := c.hashTable[Hash(b.key) := Drop(c.hashTable[Hash(b.key)], i)];
    c.(freeList := c.freeList[..n], hashTable := t[Hash(k) := [i] + t[Hash(k)]],
       buffers := c.buffers[i := Filled(k, c.disk, b.stamp)])
  }

  lemma RecycleIs(c: Cache, k: Key)
    requires Inv(c) && Cached(c.buffers, k) == -1 && |c.buffers| == c.capacity && c.freeList != []
    ensures Bread(c, k) == Ok((Recycled(c, k), c.freeList[|c.freeList| - 1]))
  {
    LookupFinds(c, k);
    var n, h := |c.freeList| - 1, Hash(k);
    var i := c.freeList[n];
    var b := c.buffers[i];
    assert i in c.freeList;
    var g := Hash(b.key);
    assert i in c.hashTable[g];
    var t := c.hashTable[g := Drop(c.hashTable[g], i)];
    var b1 := b.(valid := false);
    var c1 := c.(freeList := c.freeList[..n], hashTable := t, buffers := c.buffers[i := b1]);
    assert GetFreeBuffer(c) == Ok((c1, i));
    var b2 := b1.(count := 1, key := k);
    var c2 := c1.(buffers := c.buffers[i := b2]);
    assert c1.buffers[i := b2] == c2.buffers;
    assert i !in t[h];
    var c3 := c2.(hashTable := t[h := [i] + t[h]]);
    assert HashLocate(c2, i) == Ok(c3);
    assert Getblk(c, k) == Ok((c3, i));
    var b3 := Filled(k, c.disk, b.stamp);
    assert c3.buffers[i := b3] == c.buffers[i := b3];
  }

  lemma RecycledBuckets(c: Cache, k: Key)
    requires Inv(c) && Cached(c.buffers, k) == -1 && c.freeList != []
    ensures Buckets(Recycled(c, k))
  {
    hide Cached, Hash, OnDisk;
    var i := c.freeList[|c.freeList| - 1];
    DropNoDup(c.hashTable[Hash(c.buffers[i].key)], i);
    DropBelow(c.hashTable[Hash(c.buffers[i].key)], i, |c.buffers|);
  }

  lemma DropBelow(l: seq<nat>, i: nat, n: nat)
    requires Below(l, n)
    ensures Below(Drop(l, i), n)
  {
    forall a | 0 <= a < |Drop(l, i)| ensures Drop(l, i)[a] < n {
      assert Drop(l, i)[a] in l;
    }
  }

  lemma RecycledReleased(c: Cache, k: Key)
    requires Inv(c) && c.freeList != [] && Shape(Recycled(c, k))
    ensures Released(Recycled(c, k))
  {
    hide Cached, Hash, OnDisk;
    var n := |c.freeList| - 1;
    var i := c.freeList[n];
    forall x ensures x in c.freeList[..n] <==> x in c.freeList && x != i {
      assert c.freeList == c.freeList[..n] + [i];
    }
  }

  lemma RecycleKeeps(c: Cache, k: Key)
    requires Inv(c) && Cached(c.buffers, k) == -1 && |c.buffers| == c.capacity && c.freeList != []
    ensures var i := c.freeList[|c.freeList| - 1];
      Inv(Recycled(c, k)) && ReadStep(c, k, Recycled(c, k), i) && c.buffers[i].count == 0
  {
    var i := c.freeList[|c.freeList| - 1];
    assert i in c.freeList;
    RecycledBuckets(c, k);
    RecycledReleased(c, k);
    hide Cached, Hash, Content, Buckets, Released;
    assert OneEach(Recycled(c, k)) && Coherent(Recycled(c, k));
    hide OneEach, Coherent;
    Refill(c, Recycled(c, k), i, k) by {
      assert Coherent(c);
    }
  }

  ghost predicate AllHeld(c: Cache) {
    |c.buffers| == c.capacity && forall i :: 0 <= i < |c.buffers| ==> c.buffers[i].count > 0
  }

  // No assert of bread can fail; it waits exactly when every buffer is in use and none
  // of them holds the block.
  lemma BreadKeeps(c: Cache, k: Key)
    requires Inv(c)
    ensures Bread(c, k) == Halt(WouldSleep) <==> AllHeld(c) && Cached(c.buffers, k) == -1
    ensures Bread(c, k).Halt? ==> Bread(c, k).why == WouldSleep
    ensures Bread(c, k).Ok? ==> var (r, i) := Bread(c, k).value; Inv(r) && ReadStep(c, k, r, i)
  {
    LookupFinds(c, k);
    var j := Cached(c.buffers, k);
    if j != -1 {
      HitIs(c, j);
      HitKeeps(c, j);
    } else if |c.buffers| < c.capacity {
      NewIs(c, k);
      NewKeeps(c, k);
    } else if c.freeList != [] {
      RecycleIs(c, k);
      RecycleKeeps(c, k);
      assert c.freeList[0] in c.freeList;
    }
  }

  // The buffer that is recycled is the one released longest ago.
  lemma EvictsLeastRecentlyReleased(c: Cache, k: Key, j: nat)
    requires Inv(c) && Cached(c.buffers, k) == -1 && |c.buffers| == c.capacity && Bread(c, k).Ok?
    requires j < |c.buffers| && c.buffers[j].count == 0
    ensures var i := Bread(c, k).value.1; c.buffers[i].count == 0 && c.buffers[i].stamp <= c.buffers[j].stamp
  {
    LookupFinds(c, k);
    assert c.freeList != [];
    RecycleIs(c, k);
    RecycleKeeps(c, k);
    assert j in c.freeList;
    var a :| 0 <= a < |c.freeList| && c.freeList[a] == j;
  }

  // A block loses its buffer only to one that has none, and only when the pool has no new
  // buffer left; every other block keeps the one it has.
  lemma EvictsOnlyForNeed(c: Cache, k: Key)
    requires Inv(c) && Bread(c, k).Ok?
    ensures var (r, i) := Bread(c, k).value;
      && (forall j :: 0 <= j < |c.buffers| && j != i ==> j < |r.buffers| && r.buffers[j] == c.buffers[j])
      && (i < |c.buffers| && c.buffers[i].key != k ==> Cached(c.buffers, k) == -1 && |c.buffers| == c.capacity)
      && (i >= |c.buffers| <==> Cached(c.buffers, k) == -1 && |c.buffers| < c.capacity)
  {
    LookupFinds(c, k);
    var j := Cached(c.buffers, k);
    if j != -1 {
      HitIs(c, j);
    } else if |c.buffers| < c.capacity {
      NewIs(c, k);
    } else {
      assert c.freeList != [];
      RecycleIs(c, k);
      assert c.freeList[|c.freeList| - 1] in c.freeList;
    }
  }

  // ---------- bwrite, brelse and writing into a buffer ----------

  // Nothing changes but buffer i, and that keeps its block.
  ghost predicate OnlyBuffer(c: Cache, r: Cache, i: nat) {
    && |r.buffers| == |c.buffers| && r.capacity == c.capacity && i < |c.buffers| && r.buffers[i].key == c.buffers[i].key
    && forall j :: 0 <= j < |c.buffers| && j != i ==> r.buffers[j] == c.buffers[j]
  }

  lemma ModifyKeeps(c: Cache, i: nat, data: Data)
    requires Inv(c) && i < |c.buffers| && c.buffers[i].count > 0
    ensures var r := Modify(c, i, data);
      && Inv(r) && OnlyBuffer(c, r, i) && r.buffers[i].count == c.buffers[i].count && r.disk == c.disk
      && forall k :: Content(r, k) == if k == c.buffers[i].key then data else Content(c, k)
  {
    hide Cached;
    var r := Modify(c, i, data);
    CachedIs(c, i);
    forall k ensures Content(r, k) == if k == c.buffers[i].key then data else Content(c, k) {
      SameKeys(c.buffers, r.buffers, k);
      CachedKey(c.buffers, k);
    }
  }

  lemma CachedKey(buffers: seq<Buffer>, k: Key)
    ensures Cached(buffers, k) != -1 ==> 0 <= Cached(buffers, k) < |buffers| && buffers[Cached(buffers, k)].key == k
  {
  }

  lemma BwriteKeeps(c: Cache, i: nat)
    requires Inv(c) && i < |c.buffers|
    ensures var r := Bwrite(c, i);
      && Inv(r) && OnlyBuffer(c, r, i) && r.buffers[i] == c.buffers[i].(dirty := false)
      && SameContent(c, r) && OnDisk(r.disk, c.buffers[i].key) == Content(c, c.buffers[i].key)
      && r.freeList == c.freeList && r.clock == c.clock
      && forall k :: k != c.buffers[i].key ==> OnDisk(r.disk, k) == OnDisk(c.disk, k)
  {
    hide Cached;
    var r := Bwrite(c, i);
    CachedIs(c, i);
    forall k ensures Content(r, k) == Content(c, k) {
      SameKeys(c.buffers, r.buffers, k);
      CachedKey(c.buffers, k);
    }
  }

  // The count of a clean buffer goes down; at 0 it goes to the head of the free list.
  function Unpin(c: Cache, i: nat): Cache
    requires i < |c.buffers|
  {
    var b := c.buffers[i];
    if b.count != 1 then c.(buffers := c.buffers[i := b.(count := b.count - 1)])
    else c.(freeList := [i] + c.freeList, clock := c.clock + 1, buffers := c.buffers[i := b.(count := 0, stamp := c.clock)])
  }

  lemma UnpinOrder(c: Cache, i: nat)
    requires InOrder(c) && i < |c.buffers| && (c.buffers[i].count == 1 ==> i !in c.freeList)
    ensures InOrder(Unpin(c, i))
  {
    var r := Unpin(c, i);
    if c.buffers[i].count == 1 {
      forall a | 1 <= a < |r.freeList| ensures r.freeList[a] == c.freeList[a - 1] && r.freeList[a] != i {
        assert c.freeList[a - 1] in c.freeList;
      }
      forall a, b | 0 <= a < b < |r.freeList| ensures r.buffers[r.freeList[a]].stamp > r.buffers[r.freeList[b]].stamp {
        assert c.buffers[c.freeList[b - 1]].stamp < c.clock;
        assert a > 0 ==> c.buffers[c.freeList[a - 1]].stamp > c.buffers[c.freeList[b - 1]].stamp;
      }
    }
  }

  lemma UnpinReleased(c: Cache, i: nat)
    requires Released(c) && i < |c.buffers| && c.buffers[i].count > 0
    ensures Released(Unpin(c, i))
  {
    hide InOrder;
    UnpinOrder(c, i);
  }

  lemma UnpinKeeps(c: Cache, i: nat)
    requires Inv(c) && i < |c.buffers| && c.buffers[i].count > 0 && !c.buffers[i].dirty
    ensures Inv(Unpin(c, i)) && SameContent(c, Unpin(c, i))
  {
    UnpinReleased(c, i);
    hide Hash, OnDisk, Cached, Released;
    var r := Unpin(c, i);
    assert Buckets(r) && OneEach(r) && Coherent(r);
    hide Buckets, OneEach, Coherent;
    forall k ensures Content(r, k) == Content(c, k) {
      SameKeys(c.buffers, r.buffers, k);
      CachedKey(c.buffers, k);
    }
  }

  // A buffer that is in use can be released, and only such a one.  The last release
  // leaves the block's content on the disk.
  lemma BrelseKeeps(c: Cache, i: nat)
    requires Inv(c) && i < |c.buffers|
    ensures Brelse(c, i).Ok? <==> c.buffers[i].count > 0
    ensures Brelse(c, i).Halt? ==> Brelse(c, i).why == AssertFailed
    ensures Brelse(c, i).Ok? ==> var r := Brelse(c, i).value;
      && Inv(r) && OnlyBuffer(c, r, i) && r.buffers[i].count == c.buffers[i].count - 1 && SameContent(c, r)
      && !r.buffers[i].dirty && OnDisk(r.disk, c.buffers[i].key) == Content(c, c.buffers[i].key)
  {
    BwriteKeeps(c, i);
    if c.buffers[i].count > 0 {
      UnpinKeeps(Bwrite(c, i), i);
      hide Bwrite, Buckets, OneEach, Coherent, Cached, OnDisk, Content, Unpin;
      assert i !in c.freeList;
      assert Brelse(c, i) == Ok(Unpin(Bwrite(c, i), i));
    }
  }

  // No buffer in use: the disk alone has everything.
  lemma IdleIsDurable(c: Cache, k: Key)
    requires Inv(c) && Pins(c, k) == 0
    ensures OnDisk(c.disk, k) == Content(c, k)
  {
  }
}
