/** FixedMemPool: the blocks that are not handed out form a list whose links are stored in the blocks themselves, as
    four little-endian bytes each. Storage has a row per block. */
module MemPools {
  import opened Basics

  const INVALID: nat := 4294967295

  // Four bytes of an index

  function ByteOf(v: nat, i: nat): Byte
    requires i < 4
  {
    (match i
     case 0 => v % 256
     case 1 => v / 256 % 256
     case 2 => v / 65536 % 256
     case _ => v / 16777216 % 256) as Byte
  }

  function FromBytes(a: Byte, b: Byte, c: Byte, d: Byte): nat {
    a as nat + 256 * (b as nat) + 65536 * (c as nat) + 16777216 * (d as nat)
  }

  /** What is stored is read back. */
  lemma BytesRoundTrip(v: nat)
    requires v < 4294967296
    ensures FromBytes(ByteOf(v, 0), ByteOf(v, 1), ByteOf(v, 2), ByteOf(v, 3)) == v
  {
    var x, y, z := v / 256, v / 256 / 256, v / 256 / 256 / 256;
    HighBytes(v);
    assert v == 256 * x + v % 256 && x == 256 * y + x % 256 && y == 256 * z + y % 256 && z % 256 == z;
  }

  lemma HighBytes(v: nat)
    ensures v / 65536 == v / 256 / 256 && v / 16777216 == v / 256 / 256 / 256
  {
    var x, y, z := v / 256, v / 256 / 256, v / 256 / 256 / 256;
    UniqueRemainder(v, y, 256 * (x % 256) + v % 256, 65536);
    UniqueRemainder(v, z, 65536 * (y % 256) + 256 * (x % 256) + v % 256, 16777216);
  }

  class FixedMemPool {
    const blocks: nat         // MaxBlocks
    const stride: nat         // kAlignedBlockSize
    const storage: array2<Byte>
    var freeHead: nat
    var used: nat
    ghost var free: seq<nat>  // the list from freeHead on
    ghost var live: set<nat>  // the blocks handed out and not freed

    ghost predicate Shape()
      reads this
    {
      0 < blocks < INVALID && 4 <= stride && storage.Length0 == blocks && storage.Length1 == stride
    }

    /** LoadIndex, as a value */
    ghost function Link(b: nat): nat
      requires Shape() && b < blocks
      reads this, storage
    {
      FromBytes(storage[b, 0], storage[b, 1], storage[b, 2], storage[b, 3])
    }

    /** What follows the i-th block of the list. */
    ghost function After(s: seq<nat>, i: nat): nat {
      if i < |s| then s[i] else INVALID
    }

    ghost predicate LinkAt(s: seq<nat>, i: nat)
      requires Shape() && i < |s|
      reads this, storage
    {
      s[i] < blocks && Link(s[i]) == After(s, i + 1)
    }

    ghost predicate Valid()
      reads this, storage
    {
      && Shape() && Distinct(free) && freeHead == After(free, 0) && used == |live| && |free| + used == blocks
      && (forall b: nat :: b < blocks ==> (b in live <==> b !in free)) && (forall b :: b in live ==> b < blocks)
      && (forall i: nat {:trigger LinkAt(free, i)} :: i < |free| ==> LinkAt(free, i))
    }

    method StoreIndex(b: nat, next: nat)
      requires Shape() && b < blocks && next < 4294967296
      modifies storage
      ensures Link(b) == next
      ensures forall c: nat :: c < blocks && c != b ==> Link(c) == old(Link(c))
    {
      BytesRoundTrip(next);
      storage[b, 0] := ByteOf(next, 0);
      storage[b, 1] := ByteOf(next, 1);
      storage[b, 2] := ByteOf(next, 2);
      storage[b, 3] := ByteOf(next, 3);
    }

    method LoadIndex(b: nat) returns (next: nat)
      requires Shape() && b < blocks
      ensures next == Link(b)
    {
      next := FromBytes(storage[b, 0], storage[b, 1], storage[b, 2], storage[b, 3]);
    }

    constructor (blocks: nat, stride: nat)
      requires 0 < blocks < INVALID && 4 <= stride
      ensures Valid() && live == {} && this.blocks == blocks && this.stride == stride && fresh(storage)
    {
      this.blocks, this.stride := blocks, stride;
      storage := new Byte[blocks, stride];
      freeHead, used, live := 0, 0, {};
      free := seq(blocks, i => i);
      new;
      for i := 0 to blocks - 1
        invariant Shape() && InOrder(free) && used == 0 && freeHead == 0 && live == {}
        invariant forall j: nat {:trigger LinkAt(free, j)} :: j < i ==> LinkAt(free, j)
      {
        SetNext(i, i + 1);
      }
      SetNext(blocks - 1, INVALID);
      forall b: nat | b < blocks
        ensures b in free
      {
        assert free[b] == b;
      }
    }

    /** The free list before anything is handed out: all blocks in order. */
    ghost predicate InOrder(s: seq<nat>)
      reads this
    {
      |s| == blocks && forall j :: 0 <= j < blocks ==> s[j] == j
    }

    method SetNext(i: nat, next: nat)
      requires Shape() && InOrder(free) && i < blocks && next == After(free, i + 1)
      requires forall j: nat {:trigger LinkAt(free, j)} :: j < i ==> LinkAt(free, j)
      modifies storage
      ensures forall j: nat {:trigger LinkAt(free, j)} :: j < i + 1 ==> LinkAt(free, j)
    {
      StoreIndex(i, next);
      forall j: nat | j < i + 1
        ensures LinkAt(free, j)
      {
        if j < i {
          assert old(LinkAt(free, j));
        }
      }
    }

    /** Allocate: a block that is not live, or none exactly when all are. */
    method Allocate() returns (r: Option<nat>)
      requires Valid()
      modifies this`freeHead, this`used, this`free, this`live
      ensures Valid()
      ensures r.None? <==> forall b: nat :: b < blocks ==> b in old(live)
      ensures r.None? ==> live == old(live)
      ensures r.Some? ==> r.value < blocks && r.value !in old(live) && live == old(live) + {r.value}
    {
      assert free != [] ==> LinkAt(free, 0);
      if freeHead == INVALID {
        return None;
      }
      var b := freeHead;
      freeHead := LoadIndex(b);
      used := used + 1;
      free, live := free[1..], live + {b};
      forall i: nat | i < |free|
        ensures LinkAt(free, i)
      {
        assert old(LinkAt(free, i + 1));
      }
      return Some(b);
    }

    /** Free of a block that is handed out */
    method Free(b: nat)
      requires Valid() && b in live
      modifies this`freeHead, this`used, this`free, this`live, storage
      ensures Valid() && live == old(live) - {b}
    {
      assert free != [] ==> LinkAt(free, 0);
      StoreIndex(b, freeHead);
      freeHead := b;
      used := used - 1;
      free, live := [b] + free, live - {b};
      forall i: nat | i < |free|
        ensures LinkAt(free, i)
      {
        if i > 0 {
          assert old(LinkAt(free, i - 1));
        }
      }
    }

    /** The owner of a block writes into it. */
    method Write(b: nat, offset: nat, value: Byte)
      requires Valid() && b in live && offset < stride
      modifies storage
      ensures Valid() && storage[b, offset] == value
    {
      storage[b, offset] := value;
      forall i: nat | i < |free|
        ensures LinkAt(free, i)
      {
        assert old(LinkAt(free, i));
      }
    }

    /** FreeCount */
    function FreeCount(): nat
      requires used <= blocks
      reads this
    {
      blocks - used
    }

    /** The block that k steps along the links lead to. */
    ghost function Follow(k: nat): nat
      requires Shape()
      reads this, storage
    {
      if k == 0 then freeHead else var b := Follow(k - 1); if b < blocks then Link(b) else INVALID
    }

    /** The list ends after as many links as there are free blocks, and on the way visits each of them once and no
        other. */
    lemma {:induction false} ListEnds(k: nat)
      requires Valid() && k <= FreeCount()
      ensures Follow(k) == if k < FreeCount() then free[k] else INVALID
      ensures |free| == FreeCount() && Distinct(free) && forall b: nat :: b < blocks ==> (b in free <==> b !in live)
    {
      if k > 0 {
        ListEnds(k - 1);
        assert LinkAt(free, k - 1);
      }
    }
  }
}
