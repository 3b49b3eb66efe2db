/**
 src/kernel/buffer.cpp as it is written: buffers are taken from the pool and filled in
 place, buckets are searched and relinked.  Every method is proved to compute the
 function of the same name in module BufferCache.
 */
module BlockCache {
  import opened Outcome
  import opened Lists
  import B = BufferCache

  class BlockCache {
    const buffers: array<B.Buffer>
    const hashTable: array<seq<nat>>
    var bufferCount: nat
    var freeList: seq<nat>
    var disk: map<B.Key, B.Data>
    var clock: nat

    ghost function View(): B.Cache
      requires bufferCount <= buffers.Length
      reads this, buffers, hashTable
    {
      B.Cache(buffers.Length, buffers[..bufferCount], hashTable[..], freeList, disk, clock)
    }

    ghost predicate Valid()
      reads this, buffers, hashTable
    {
      bufferCount <= buffers.Length && B.Shape(View())
    }

    // bufferInit over a pool of `capacity` buffers.
    constructor (capacity: nat, disk: map<B.Key, B.Data>)
      ensures Valid() && fresh(buffers) && fresh(hashTable) && View() == B.Init(capacity, disk)
    {
      buffers := new B.Buffer[capacity](_ => B.Fresh);
      hashTable := new seq<nat>[B.HASH_COUNT](_ => []);
      bufferCount := 0;
      freeList := [];
      this.disk := disk;
      clock := 0;
    }

    method GetFromHashTable(k: B.Key) returns (bf: int)
      requires Valid()
      modifies this`freeList
      ensures bufferCount <= buffers.Length && bf == B.Lookup(old(View()), k)
      ensures View() == if bf == -1 then old(View()) else old(View()).(freeList := Drop(old(freeList), bf))
    {
      var list := hashTable[B.Hash(k)];
      bf := -1;
      var n := 0;
      while n < |list|
        invariant 0 <= n <= |list| && bf == -1
        invariant B.FindIn(buffers[..bufferCount], list[n..], k) == B.Lookup(View(), k)
      {
        assert list[n..][0] == list[n] && list[n..][1..] == list[n + 1..];
        if buffers[list[n]].key == k {
          bf := list[n];
          break;
        }
        n := n + 1;
      }
      if bf == -1 {
        return;
      }
      if bf in freeList {
        freeList := Drop(freeList, bf);
      } else {
        DropAbsent(freeList, bf);
      }
    }

    method HashLocate(i: nat) returns (r: Result<()>)
      requires i < bufferCount <= buffers.Length && hashTable.Length == B.HASH_COUNT
      modifies hashTable
      ensures r.Halt? ==> B.HashLocate(old(View()), i) == Halt(r.why)
      ensures r.Ok? ==> B.HashLocate(old(View()), i) == Ok(View())
    {
      var h := B.Hash(buffers[i].key);
      if i in hashTable[h] {
        return Halt(AssertFailed);
      }
      hashTable[h] := [i] + hashTable[h];
      return Ok(());
    }

    method HashRemove(i: nat) returns (r: Result<()>)
      requires i < bufferCount <= buffers.Length && hashTable.Length == B.HASH_COUNT
      modifies hashTable
      ensures r.Halt? ==> B.HashRemove(old(View()), i) == Halt(r.why)
      ensures r.Ok? ==> B.HashRemove(old(View()), i) == Ok(View())
    {
      var h := B.Hash(buffers[i].key);
      if i !in hashTable[h] {
        return Halt(AssertFailed);
      }
      hashTable[h] := Drop(hashTable[h], i);
      return Ok(());
    }

    // getNewBuffer; -1 when the pool is used up.
    method GetNewBuffer() returns (bf: int)
      requires Valid()
      modifies this`bufferCount, buffers
      ensures bufferCount <= buffers.Length && hashTable.Length == B.HASH_COUNT
      ensures bf == -1 ==> old(bufferCount) == buffers.Length && View() == old(View())
      ensures bf != -1 ==> bf == old(bufferCount) < buffers.Length && View() == old(View()).(buffers := old(View()).buffers + [B.Fresh])
    {
      if bufferCount < buffers.Length {
        bf := bufferCount;
        buffers[bf] := B.Fresh;
        bufferCount := bufferCount + 1;
      } else {
        bf := -1;
      }
    }

    method GetFreeBuffer() returns (r: Result<nat>)
      requires Valid()
      modifies this, buffers, hashTable
      ensures bufferCount <= buffers.Length && hashTable.Length == B.HASH_COUNT
      ensures r.Halt? ==> B.GetFreeBuffer(old(View())) == Halt(r.why)
      ensures r.Ok? ==> r.value < bufferCount && B.GetFreeBuffer(old(View())) == Ok((View(), r.value))
      ensures r == Halt(WouldSleep) ==> View() == old(View())
    {
      var bf := GetNewBuffer();
      if bf != -1 {
        return Ok(bf);
      }
      if freeList == [] {
        return Halt(WouldSleep);
      }
      bf := freeList[|freeList| - 1];
      freeList := freeList[..|freeList| - 1];
      var removed := HashRemove(bf);
      if removed.Halt? {
        return Halt(removed.why);
      }
      buffers[bf] := buffers[bf].(valid := false);
      return Ok(bf);
    }

    method Getblk(k: B.Key) returns (r: Result<nat>)
      requires Valid()
      modifies this, buffers, hashTable
      ensures bufferCount <= buffers.Length
      ensures r.Halt? ==> B.Getblk(old(View()), k) == Halt(r.why)
      ensures r.Ok? ==> r.value < bufferCount && B.Getblk(old(View()), k) == Ok((View(), r.value))
      ensures r == Halt(WouldSleep) ==> View() == old(View())
    {
      var bf := GetFromHashTable(k);
      if bf != -1 {
        if !buffers[bf].valid {
          return Halt(AssertFailed);
        }
        return Ok(bf);
      }
      r := GetFreeBuffer();
      if r.Halt? {
        return;
      }
      var i := r.value;
      if buffers[i].count != 0 || buffers[i].dirty {
        return Halt(AssertFailed);
      }
      ghost var c := View();
      buffers[i] := buffers[i].(count := 1, key := k);
      assert View() == c.(buffers := c.buffers[i := c.buffers[i].(count := 1, key := k)]);
      var located := HashLocate(i);
      if located.Halt? {
        return Halt(located.why);
      }
    }

    method Bread(k: B.Key) returns (r: Result<nat>)
      requires Valid()
      modifies this, buffers, hashTable
      ensures bufferCount <= buffers.Length
      ensures r.Halt? ==> B.Bread(old(View()), k) == Halt(r.why)
      ensures r.Ok? ==> r.value < bufferCount && B.Bread(old(View()), k) == Ok((View(), r.value))
      ensures r == Halt(WouldSleep) ==> View() == old(View())
    {
      r := Getblk(k);
      if r.Halt? {
        return;
      }
      var i := r.value;
      ghost var c := View();
      if buffers[i].valid {
        buffers[i] := buffers[i].(count := buffers[i].count + 1);
      } else {
        buffers[i] := buffers[i].(data := B.OnDisk(disk, buffers[i].key));
        buffers[i] := buffers[i].(dirty := false, valid := true);
      }
      assert View().buffers == c.buffers[i := buffers[i]];
    }

    method Bwrite(i: nat)
      requires i < bufferCount <= buffers.Length
      modifies this`disk, buffers
      ensures View() == B.Bwrite(old(View()), i)
    {
      if !buffers[i].dirty {
        return;
      }
      disk := disk[buffers[i].key := buffers[i].data];
      buffers[i] := buffers[i].(dirty := false, valid := true);
    }

    method Brelse(i: nat) returns (r: Result<()>)
      requires i < bufferCount <= buffers.Length
      modifies this, buffers
      ensures bufferCount <= buffers.Length
      ensures r.Halt? ==> B.Brelse(old(View()), i) == Halt(r.why)
      ensures r.Ok? ==> B.Brelse(old(View()), i) == Ok(View())
    {
      if buffers[i].dirty {
        Bwrite(i);
      }
      ghost var c := View();
      buffers[i] := buffers[i].(count := buffers[i].count - 1);
      assert View().buffers == c.buffers[i := buffers[i]];
      if buffers[i].count < 0 {
        return Halt(AssertFailed);
      }
      if buffers[i].count != 0 {
        return Ok(());
      }
      if i in freeList {
        return Halt(AssertFailed);
      }
      freeList := [i] + freeList;
      buffers[i] := buffers[i].(stamp := clock);
      clock := clock + 1;
      assert View().buffers == c.buffers[i := buffers[i]];
      return Ok(());
    }
  }
}
