/**
 src/lib/bitmap.cpp: bits packed in bytes, and the search for a run of clear bits.
 `Flags` reads the bytes as one sequence of booleans; everything is specified on it.
 */
module Bitmap {

  // 1 << i in a byte.
  function Mask(i: nat): bv8
    requires i < 8
  {
    match i
    case 0 => 1
    case 1 => 2
    case 2 => 4
    case 3 => 8
    case 4 => 16
    case 5 => 32
    case 6 => 64
    case 7 => 128
  }

  predicate Bit(b: bv8, i: nat)
    requires i < 8
  {
    b & Mask(i) != 0
  }

  lemma Masks(i: nat, j: nat)
    requires i < 8 && j < 8
    ensures Mask(i) != 0 && (i != j ==> Mask(i) & Mask(j) == 0)
  {
  }

  lemma MaskOps(b: bv8, m: bv8, n: bv8)
    ensures m != 0 ==> (b | m) & m != 0 && b & !m & m == 0
    ensures m & n == 0 ==> (b | m) & n == b & n && b & !m & n == b & n
  {
  }

  lemma BitOps(b: bv8, i: nat, j: nat)
    requires i < 8 && j < 8
    ensures Bit(b | Mask(i), j) <==> i == j || Bit(b, j)
    ensures Bit(b & !Mask(i), j) <==> i != j && Bit(b, j)
  {
    Masks(i, j);
    MaskOps(b, Mask(i), Mask(j));
    hide *;
    BitIs(b | Mask(i), j);
    BitIs(b & !Mask(i), j);
    BitIs(b, j);
  }

  lemma BitIs(b: bv8, i: nat)
    requires i < 8
    ensures Bit(b, i) <==> b & Mask(i) != 0
  {
  }

  function Flags(bytes: seq<bv8>): (f: seq<bool>)
    ensures |f| == 8 * |bytes|
    ensures forall k :: 0 <= k < |f| ==> f[k] == Bit(bytes[k / 8], k % 8)
  {
    seq(8 * |bytes|, k requires 0 <= k < 8 * |bytes| => Bit(bytes[k / 8], k % 8))
  }

  // The byte with bit i set or cleared.
  function WithBit(b: bv8, i: nat, value: bool): (r: bv8)
    requires i < 8
    ensures forall j: nat :: j < 8 ==> (Bit(r, j) <==> if j == i then value else Bit(b, j))
  {
    BitOpsAll(b, i);
    if value then b | Mask(i) else b & !Mask(i)
  }

  lemma BitOpsAll(b: bv8, i: nat)
    requires i < 8
    ensures forall j: nat :: j < 8 ==> (Bit(b | Mask(i), j) <==> i == j || Bit(b, j))
    ensures forall j: nat :: j < 8 ==> (Bit(b & !Mask(i), j) <==> i != j && Bit(b, j))
  {
    forall j: nat | j < 8
      ensures (Bit(b | Mask(i), j) <==> i == j || Bit(b, j)) && (Bit(b & !Mask(i), j) <==> i != j && Bit(b, j))
    {
      BitOps(b, i, j);
    }
  }

  lemma SetFlags(bytes: seq<bv8>, idx: nat, value: bool)
    requires idx < 8 * |bytes|
    ensures Flags(bytes[idx / 8 := WithBit(bytes[idx / 8], idx % 8, value)]) == Flags(bytes)[idx := value]
  {
    hide Bit, Mask, WithBit;
    var bytes' := bytes[idx / 8 := WithBit(bytes[idx / 8], idx % 8, value)];
    forall k | 0 <= k < 8 * |bytes| ensures Flags(bytes')[k] == Flags(bytes)[idx := value][k] {
      assert k == idx <==> k / 8 == idx / 8 && k % 8 == idx % 8;
    }
  }

  // Bits s..s+n exist and are clear.
  predicate IsClear(f: seq<bool>, s: int, n: nat) {
    0 <= s && s + n <= |f| && forall k :: s <= k < s + n ==> !f[k]
  }

  // s is where a first-fit search for n clear bits ends; -1 if there is no such run.
  predicate IsFirstFit(f: seq<bool>, n: nat, s: int) {
    if s == -1 then forall k :: 0 <= k < |f| ==> !IsClear(f, k, n)
    else IsClear(f, s, n) && forall k :: 0 <= k < s ==> !IsClear(f, k, n)
  }

  function FirstFit(f: seq<bool>, n: nat, s: nat): (r: int)
    requires s <= |f| && forall k :: 0 <= k < s ==> !IsClear(f, k, n)
    ensures n > 0 ==> IsFirstFit(f, n, r)
    decreases |f| - s
  {
    if s == |f| then -1 else if IsClear(f, s, n) then s else FirstFit(f, n, s + 1)
  }

  function Fill(f: seq<bool>, s: int, n: nat, v: bool): (r: seq<bool>)
    ensures |r| == |f| && forall k :: 0 <= k < |f| ==> r[k] == if s <= k < s + n then v else f[k]
  {
    seq(|f|, k requires 0 <= k < |f| => if s <= k < s + n then v else f[k])
  }

  // Clearing the run that a search has marked restores the map.
  lemma ResetUndoesScan(f: seq<bool>, n: nat)
    requires n > 0 && FirstFit(f, n, 0) != -1
    ensures Fill(Fill(f, FirstFit(f, n, 0), n, true), FirstFit(f, n, 0), n, false) == f
    ensures Fill(f, FirstFit(f, n, 0), n, true) != f
  {
    var s := FirstFit(f, n, 0);
    assert !f[s] && Fill(f, s, n, true)[s];
  }

  class BitmapT {
    const bits: array<bv8>
    const offset: nat

    ghost function View(): (f: seq<bool>)
      reads bits
      ensures |f| == 8 * bits.Length
    {
      Flags(bits[..])
    }

    // bitmapInit: all bits clear.
    constructor (length: nat, offset: nat)
      ensures this.offset == offset && bits.Length == length && fresh(bits)
      ensures View() == seq(8 * length, _ => false)
    {
      this.offset := offset;
      bits := new bv8[length](_ => 0);
      new;
      assert forall k :: 0 <= k < length ==> bits[..][k] == 0;
    }

    method Test(index: nat) returns (r: bool)
      requires offset <= index < offset + 8 * bits.Length
      ensures r == View()[index - offset]
    {
      var idx := index - offset;
      r := bits[idx / 8] & Mask(idx % 8) != 0;
    }

    method Set(index: nat, value: bool)
      requires offset <= index < offset + 8 * bits.Length
      modifies bits
      ensures View() == old(View())[index - offset := value]
    {
      hide Bit, Mask, WithBit, Flags;
      var idx := index - offset;
      ghost var bytes := bits[..];
      bits[idx / 8] := WithBit(bits[idx / 8], idx % 8, value);
      SetFlags(bytes, idx, value);
      assert bits[..] == bytes[idx / 8 := bits[idx / 8]];
    }

    // First fit: the lowest run of `count` clear bits is marked and its index
    // returned, or the map is left alone when there is none.
    method Scan(count: nat) returns (r: int)
      requires count > 0
      modifies bits
      ensures var s := FirstFit(old(View()), count, 0);
        && r == (if s == -1 then -1 else s + offset)
        && View() == (if s == -1 then old(View()) else Fill(old(View()), s, count, true))
    {
      hide Bit, Mask, WithBit, Flags;
      var start := -1;
      var bits_left := bits.Length * 8;
      var next_bit := 0;
      var counter := 0;
      ghost var f := View();
      while bits_left > 0
        invariant 0 <= bits_left && next_bit + bits_left == bits.Length * 8 && 0 <= counter <= next_bit
        invariant start == -1 && counter < count && View() == f
        invariant forall k :: next_bit - counter <= k < next_bit ==> !f[k]
        invariant counter == next_bit || f[next_bit - counter - 1]
        invariant forall k :: 0 <= k < next_bit - counter ==> !IsClear(f, k, count)
      {
        bits_left := bits_left - 1;
        var used := Test(offset + next_bit);
        if !used {
          counter := counter + 1;
        } else {
          forall k | 0 <= k < next_bit + 1 ensures !IsClear(f, k, count) {
            if next_bit - counter <= k {
              assert k <= next_bit < k + count;
            }
          }
          counter := 0;
        }
        next_bit := next_bit + 1;
        if counter == count {
          start := next_bit - count;
          break;
        }
      }
      if start == -1 {
        assert forall k :: 0 <= k < |f| ==> !IsClear(f, k, count);
        return -1;
      }
      FirstFitIs(f, count, start, 0);
      bits_left := count;
      next_bit := start;
      while bits_left > 0
        invariant bits_left + next_bit == start + count
        invariant View() == Fill(f, start, next_bit - start, true)
      {
        bits_left := bits_left - 1;
        Set(offset + next_bit, true);
        next_bit := next_bit + 1;
      }
      return start + offset;
    }

    // resetPage: the bits of a run that is in use are cleared; false if one is not.
    method Reset(index: nat, count: nat) returns (ok: bool)
      requires count > 0 && offset <= index && index + count <= offset + 8 * bits.Length
      modifies bits
      ensures ok <==> forall k :: index - offset <= k < index - offset + count ==> old(View())[k]
      ensures ok ==> View() == Fill(old(View()), index - offset, count, false)
    {
      hide Bit, Mask, WithBit, Flags;
      var i := 0;
      ghost var f := View();
      while i < count
        invariant 0 <= i <= count
        invariant View() == Fill(f, index - offset, i, false)
        invariant forall k :: index - offset <= k < index - offset + i ==> f[k]
      {
        var used := Test(index + i);
        if !used {
          assert !f[index - offset + i];
          return false;
        }
        Set(index + i, false);
        i := i + 1;
      }
      return true;
    }
  }

  lemma {:induction false} FirstFitIs(f: seq<bool>, n: nat, s: nat, from: nat)
    requires n > 0 && IsFirstFit(f, n, s) && from <= s
    ensures FirstFit(f, n, from) == s
    decreases s - from
  {
    if from < s {
      FirstFitIs(f, n, s, from + 1);
    }
  }
}
