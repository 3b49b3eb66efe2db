/**
 src/fs/inode.cpp as it is written, over the class of the block cache.  Every method
 is proved to compute the function of the same name in module InodeTable.
 */
module InodeCache {
  import opened Outcome
  import opened Lists
  import opened BlockCache
  import B = BufferCache
  import I = InodeTable

  class InodeCache {
    const cache: BlockCache
    const inodes: array<I.Inode>
    var supers: map<int, I.Super>

    ghost predicate Valid()
      reads this, inodes, cache, cache.buffers, cache.hashTable
    {
      cache.Valid() && I.Linked(View())
    }

    ghost function View(): I.Fs
      requires cache.bufferCount <= cache.buffers.Length
      reads this, inodes, cache, cache.buffers, cache.hashTable
    {
      I.Fs(cache.View(), inodes[..], supers)
    }

    // inodeInit over a cache, with the file systems that are mounted.
    constructor (cache: BlockCache, supers: map<int, I.Super>)
      requires cache.Valid() && forall d :: d in supers ==> supers[d].inodeList == []
      ensures this.cache == cache && fresh(inodes) && this.supers == supers && Valid()
      ensures forall i :: 0 <= i < I.INODE_NR ==> !I.InUse(View(), i)
    {
      this.cache := cache;
      this.supers := supers;
      inodes := new I.Inode[I.INODE_NR](_ => I.Inode(B.EOF, 0, 0, 0, 0));
    }

    method GetFreeInode() returns (i: nat)
      ensures i == I.GetFreeInode(inodes[..], 0)
    {
      i := 0;
      while i < inodes.Length && inodes[i].dev != B.EOF
        invariant i <= inodes.Length && I.GetFreeInode(inodes[..], i) == I.GetFreeInode(inodes[..], 0)
      {
        i := i + 1;
      }
    }

    method FindInode(dev: int, nr: nat) returns (r: int)
      requires Valid() && dev in supers
      ensures r == I.FindInode(inodes[..], supers[dev].inodeList, nr)
    {
      var list := supers[dev].inodeList;
      var n := 0;
      while n < |list|
        invariant 0 <= n <= |list|
        invariant I.FindInode(inodes[..], list[n..], nr) == I.FindInode(inodes[..], list, nr)
      {
        assert list[n..][0] == list[n] && list[n..][1..] == list[n + 1..];
        if inodes[list[n]].nr == nr {
          return list[n];
        }
        n := n + 1;
      }
      return -1;
    }

    method Iget(dev: int, nr: nat) returns (r: Result<nat>)
      requires Valid()
      modifies this, inodes, cache, cache.buffers, cache.hashTable
      ensures cache.bufferCount <= cache.buffers.Length
      ensures r.Halt? ==> I.Iget(old(View()), dev, nr) == Halt(r.why)
      ensures r.Ok? ==> I.Iget(old(View()), dev, nr) == Ok((View(), r.value))
    {
      if dev !in supers {
        return Halt(AssertFailed);
      }
      ghost var s := View();
      I.GetIs(s, dev, nr);
      hide I.Iget;
      var inode := FindInode(dev, nr);
      if inode != -1 {
        inodes[inode] := inodes[inode].(count := (inodes[inode].count + 1) % I.TWO32);
        return Ok(inode);
      }
      var sb := supers[dev];
      if nr > sb.inodes {
        return Halt(AssertFailed);
      }
      var f := GetFreeInode();
      if f == I.INODE_NR {
        return Halt(TableFull);
      }
      inodes[f] := inodes[f].(dev := dev, nr := nr, count := 1);
      if f in sb.inodeList {
        return Halt(AssertFailed);
      }
      supers := supers[dev := sb.(inodeList := [f] + sb.inodeList)];
      var buf := cache.Bread(B.Key(dev, I.InodeBlock(sb, nr)));
      if buf.Halt? {
        return Halt(buf.why);
      }
      inodes[f] := inodes[f].(buf := buf.value, slot := I.Slot(nr));
      assert inodes[..] == s.inodes[f := I.Inode(dev, nr, 1, buf.value, I.Slot(nr))];
      return Ok(f);
    }

    method Iput(i: nat) returns (r: Result<()>)
      requires Valid() && i < I.INODE_NR
      modifies this, inodes, cache, cache.buffers
      ensures cache.bufferCount <= cache.buffers.Length
      ensures r.Halt? ==> I.Iput(old(View()), i) == Halt(r.why)
      ensures r.Ok? ==> I.Iput(old(View()), i) == Ok(View())
    {
      ghost var s := View();
      inodes[i] := inodes[i].(count := (inodes[i].count - 1) % I.TWO32);
      if inodes[i].count != 0 {
        return Ok(());
      }
      var n := inodes[i];
      if n.buf >= cache.bufferCount {
        return Halt(Undefined);
      }
      var released := cache.Brelse(n.buf);
      if released.Halt? {
        return Halt(released.why);
      }
      if n.dev !in supers || i !in supers[n.dev].inodeList {
        return Halt(AssertFailed);
      }
      supers := supers[n.dev := supers[n.dev].(inodeList := Drop(supers[n.dev].inodeList, i))];
      if i == 0 {
        return Halt(AssertFailed);
      }
      inodes[i] := inodes[i].(dev := B.EOF);
      assert inodes[..] == s.inodes[i := s.inodes[i].(count := 0, dev := B.EOF)];
      return Ok(());
    }
  }
}
