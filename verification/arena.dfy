/** The region arena: allocations are cut off a chain of regions, and marks rewind it. Sizes are in words of eight
    bytes. */
module Arenas {
  import opened Basics

  // The shape of an arena: capacities and used words of its regions, and which of them is `end` (-1 for none)

  datatype Shape = Shape(caps: seq<nat>, counts: seq<nat>, at: int)

  datatype Block = Block(region: nat, offset: nat, size: nat)

  ghost predicate Fits(s: Shape) {
    && |s.caps| == |s.counts| && -1 <= s.at < |s.caps| && (s.at == -1 <==> s.caps == [])
    && (forall i :: 0 <= i < |s.caps| ==> s.counts[i] <= s.caps[i])
    && (forall i :: s.at < i < |s.caps| ==> s.counts[i] == 0)
  }

  const EMPTY := Shape([], [], -1)

  /** ARENA_REGION_DEFAULT_CAPACITY, or as much as is asked for */
  function NewCapacity(size: nat): nat {
    Max(8192, size)
  }

  /** The first region from i on with that many words left. */
  function FirstFit(s: Shape, i: nat, size: nat): (j: nat)
    requires |s.caps| == |s.counts| && i <= |s.caps|
    ensures i <= j <= |s.caps|
    ensures j < |s.caps| ==> s.counts[j] + size <= s.caps[j]
    ensures forall k :: i <= k < j ==> s.counts[k] + size > s.caps[k]
    decreases |s.caps| - i
  {
    if i == |s.caps| || s.counts[i] + size <= s.caps[i] then i else FirstFit(s, i + 1, size)
  }

  function Place(s: Shape, size: nat): nat
    requires |s.caps| == |s.counts| && -1 <= s.at <= |s.caps|
  {
    if s.at < 0 then 0 else FirstFit(s, s.at, size)
  }

  function Allocated(s: Shape, size: nat): Shape
    requires |s.caps| == |s.counts| && -1 <= s.at <= |s.caps| && (s.at == -1 ==> s.caps == [])
  {
    var j := Place(s, size);
    if j < |s.caps| then Shape(s.caps, s.counts[j := s.counts[j] + size], j)
    else Shape(s.caps + [NewCapacity(size)], s.counts + [size], j)
  }

  function NewBlock(s: Shape, size: nat): Block
    requires |s.caps| == |s.counts| && -1 <= s.at <= |s.caps| && (s.at == -1 ==> s.caps == [])
  {
    var j := Place(s, size);
    Block(j, if j < |s.caps| then s.counts[j] else 0, size)
  }

  function Zeros(n: nat): (z: seq<nat>)
    ensures |z| == n && forall i :: 0 <= i < n ==> z[i] == 0
  {
    seq(n, _ => 0)
  }

  function Emptied(s: Shape): Shape {
    Shape(s.caps, Zeros(|s.caps|), if s.caps == [] then -1 else 0)
  }

  /** Rewinding to a mark: what comes after the marked region is empty, the marked region has its old count. */
  function Rewound(s: Shape, at: int, count: nat): Shape
    requires |s.caps| == |s.counts| && -1 <= at < |s.caps|
  {
    if at < 0 then Emptied(s) else Shape(s.caps, s.counts[..at] + [count] + Zeros(|s.caps| - at - 1), at)
  }

  function MarkCount(s: Shape): nat
    requires -1 <= s.at < |s.counts|
  {
    if s.at < 0 then 0 else s.counts[s.at]
  }

  function Trimmed(s: Shape): Shape
    requires 0 <= s.at < |s.caps| == |s.counts|
  {
    Shape(s.caps[..s.at + 1], s.counts[..s.at + 1], s.at)
  }

  lemma AllocatedFits(s: Shape, size: nat)
    requires Fits(s)
    ensures Fits(Allocated(s, size))
  {
  }

  // Blocks

  /** The block lies in the used part of its region. */
  predicate Within(b: Block, s: Shape) {
    b.region <= s.at < |s.counts| && b.offset + b.size <= s.counts[b.region]
  }

  predicate Disjoint(a: Block, b: Block) {
    a.region != b.region || a.offset + a.size <= b.offset || b.offset + b.size <= a.offset
  }

  ghost predicate AllWithin(bs: seq<Block>, s: Shape) {
    forall i :: 0 <= i < |bs| ==> Within(bs[i], s)
  }

  ghost predicate AllDisjoint(bs: seq<Block>) {
    forall i, j :: 0 <= i < j < |bs| ==> Disjoint(bs[i], bs[j])
  }

  /** A new block is in its region and apart from all that lie in the used parts. */
  lemma NewBlockIsApart(s: Shape, size: nat, bs: seq<Block>)
    requires Fits(s) && AllWithin(bs, s) && AllDisjoint(bs)
    ensures var b := NewBlock(s, size); var t := Allocated(s, size);
            AllWithin(bs + [b], t) && AllDisjoint(bs + [b]) && b.offset + b.size <= t.caps[b.region]
  {
  }

  /** A region is added exactly when none from the end on has room, and then it has the default capacity or, for a
      larger block, just that; otherwise the block goes to the first that has, behind what is used there. */
  lemma PlacedExactlyWhen(s: Shape, size: nat)
    requires Fits(s)
    ensures var b, t := NewBlock(s, size), Allocated(s, size);
            var full := forall k :: 0 <= k < |s.caps| && s.at <= k ==> s.counts[k] + size > s.caps[k];
            && (t.caps != s.caps <==> full) && b.region == t.at && b.size == size
            && (full ==> b.region == |s.caps| && b.offset == 0)
            && (full ==> t.caps == s.caps + [if size > 8192 then size else 8192])
            && (!full ==> s.at <= b.region < |s.caps| && b.offset == s.counts[b.region] &&
                          forall k :: 0 <= k < b.region && s.at <= k ==> s.counts[k] + size > s.caps[k])
  {
    assert |Allocated(s, size).caps| == if Place(s, size) < |s.caps| then |s.caps| else |s.caps| + 1;
  }

  // Marks

  /** t has come from a by allocating and trimming: the regions before a's end are as they were. */
  ghost predicate Grew(a: Shape, t: Shape)
    requires Fits(a) && Fits(t)
  {
    && t.at >= a.at && t.caps[..a.at + 1] == a.caps[..a.at + 1]
    && (a.at >= 0 ==> t.counts[..a.at] == a.counts[..a.at] && t.counts[a.at] >= a.counts[a.at])
  }

  /** t uses exactly what a uses; after the end it may have other regions, which are empty. */
  ghost predicate Restored(a: Shape, t: Shape)
    requires Fits(a)
  {
    && a.at < |t.caps| && t.caps[..a.at + 1] == a.caps[..a.at + 1]
    && t.counts == a.counts[..a.at + 1] + Zeros(|t.caps| - a.at - 1)
    && t.at == if a.at < 0 && t.caps != [] then 0 else a.at
  }

  lemma RewindRestores(a: Shape, t: Shape)
    requires Fits(a) && Fits(t) && Grew(a, t)
    ensures Restored(a, Rewound(t, a.at, MarkCount(a))) && Fits(Rewound(t, a.at, MarkCount(a)))
  {
  }

  lemma AllocationGrows(a: Shape, t: Shape, size: nat)
    requires Fits(a) && Fits(t) && Grew(a, t)
    ensures Fits(Allocated(t, size)) && Grew(a, Allocated(t, size))
  {
  }

  lemma RestoredGrew(b: Shape, a: Shape, t: Shape)
    requires Fits(a) && Fits(b) && Grew(b, a) && Fits(t) && Restored(a, t)
    ensures Grew(b, t)
  {
  }

  // The arena

  class Region {
    var next: Region?
    var count: nat
    const capacity: nat
    const data: array<Byte>

    /** new_region */
    constructor (capacity: nat)
      requires RegionBytes(capacity) == 24 + 8 * capacity
      ensures next == null && count == 0 && this.capacity == capacity && fresh(data) && data.Length == 8 * capacity
    {
      next, count := null, 0;
      this.capacity := capacity;
      data := new Byte[8 * capacity];
    }
  }

  /** The i-th region is linked to the one after it, and is as the shape says. */
  ghost predicate RegionAt(regions: seq<Region>, s: Shape, i: nat)
    requires i < |regions| == |s.caps| == |s.counts|
    reads regions
  {
    && regions[i].next == (if i + 1 < |regions| then regions[i + 1] else null)
    && regions[i].capacity == s.caps[i] && regions[i].count == s.counts[i] && regions[i].data.Length == 8 * s.caps[i]
  }

  ghost predicate DistinctRegions(regions: seq<Region>) {
    forall i, j {:trigger regions[i], regions[j]} ::
      0 <= i < j < |regions| ==> regions[i] != regions[j] && regions[i].data != regions[j].data
  }

  ghost predicate Chain(regions: seq<Region>, s: Shape)
    reads regions
  {
    && |regions| == |s.caps| == |s.counts| && DistinctRegions(regions)
    && forall i: nat {:trigger RegionAt(regions, s, i)} :: i < |regions| ==> RegionAt(regions, s, i)
  }

  /** The regions from the n-th on are new. */
  twostate predicate FreshFrom(new regions: seq<Region>, n: nat) {
    forall i {:trigger regions[i]} :: n <= i < |regions| ==> fresh(regions[i]) && fresh(regions[i].data)
  }

  function DataOf(regions: seq<Region>): set<array<Byte>> {
    set r | r in regions :: r.data
  }

  class Arena {
    var begin: Region?
    var end: Region?
    ghost var regions: seq<Region>
    ghost var shape: Shape

    ghost predicate Valid()
      reads this, regions
    {
      && Fits(shape) && Chain(regions, shape)
      && begin == (if regions == [] then null else regions[0])
      && end == (if shape.at < 0 then null else regions[shape.at])
    }

    constructor ()
      ensures Valid() && shape == EMPTY && regions == []
    {
      begin, end, regions, shape := null, null, [], EMPTY;
    }

    /** The loop of arena_alloc that looks for room further on */
    method Skip(size: nat) returns (r: Region, ghost j: nat)
      requires Valid() && shape.at >= 0
      ensures j < |regions| && r == regions[j] && shape.at <= j
      ensures FirstFit(shape, shape.at, size) == if shape.counts[j] + size <= shape.caps[j] then j else |shape.caps|
      ensures shape.counts[j] + size > shape.caps[j] ==> j == |regions| - 1
    {
      r, j := end, shape.at;
      assert RegionAt(regions, shape, j);
      while r.count + size > r.capacity && r.next != null
        invariant shape.at <= j < |regions| && r == regions[j] && RegionAt(regions, shape, j)
        invariant FirstFit(shape, shape.at, size) == FirstFit(shape, j, size)
        decreases |regions| - j
      {
        assert RegionAt(regions, shape, j + 1);
        r, j := r.next, j + 1;
      }
    }

    /** A new last region becomes the end. */
    method AddRegion(last: Region?, size: nat)
      requires Valid() && last == if regions == [] then null else regions[|regions| - 1]
      requires RegionBytes(NewCapacity(size)) == 24 + 8 * NewCapacity(size)
      modifies this, last
      ensures Valid() && |regions| == |old(regions)| + 1 && regions[..|old(regions)|] == old(regions)
      ensures fresh(regions[|old(regions)|]) && fresh(regions[|old(regions)|].data)
      ensures shape == Shape(old(shape).caps + [NewCapacity(size)], old(shape).counts + [0], |old(regions)|)
    {
      var capacity: nat := 8192;
      if capacity < size {
        capacity := size;
      }
      var r := new Region(capacity);
      Attach(last, r);
    }

    method Attach(last: Region?, r: Region)
      requires Valid() && last == if regions == [] then null else regions[|regions| - 1]
      requires r !in regions && r.data !in DataOf(regions) && r.data.Length == 8 * r.capacity
      requires r.next == null && r.count == 0
      modifies this, last
      ensures Valid() && regions == old(regions) + [r]
      ensures shape == Shape(old(shape).caps + [r.capacity], old(shape).counts + [0], |old(regions)|)
    {
      ghost var n := |regions|;
      if last == null {
        begin := r;
      } else {
        assert RegionAt(regions, shape, n - 1);
        last.next := r;
      }
      end := r;
      regions, shape := regions + [r], Shape(shape.caps + [r.capacity], shape.counts + [0], n);
      forall i: nat | i < n + 1
        ensures RegionAt(regions, shape, i)
      {
        if i < n {
          assert old(RegionAt(regions, shape, i));
        }
      }
    }

    /** Cut the words off the region, which becomes the end. */
    method Bump(r: Region, size: nat, ghost j: nat) returns (offset: nat)
      requires Valid() && j < |regions| && r == regions[j] && j >= shape.at && shape.counts[j] + size <= shape.caps[j]
      modifies this`end, this`shape, r`count
      ensures Valid() && offset == old(shape).counts[j]
      ensures shape == Shape(old(shape).caps, old(shape).counts[j := old(shape).counts[j] + size], j)
    {
      assert RegionAt(regions, shape, j);
      end := r;
      offset := r.count;
      r.count := r.count + size;
      shape := Shape(shape.caps, shape.counts[j := shape.counts[j] + size], j);
      forall i: nat | i < |regions|
        ensures RegionAt(regions, shape, i)
      {
        assert old(RegionAt(regions, shape, i));
      }
    }

    /** arena_alloc; the result is the region of the block and its first word. */
    method Alloc(bytes: nat) returns (r: Region, offset: nat)
      requires Valid() && Allocatable(bytes)
      modifies this, regions
      ensures Valid() && old(regions) <= regions && FreshFrom(regions, |old(regions)|)
      ensures shape == Allocated(old(shape), Words(bytes))
      ensures NewBlock(old(shape), Words(bytes)) == Block(shape.at, offset, Words(bytes)) && r == regions[shape.at]
    {
      var size := WordsFor(bytes);
      ghost var j;
      RoomAndBump(shape, size);
      r, j := Room(size);
      offset := Bump(r, size, j);
    }

    static method WordsFor(bytes: nat) returns (size: nat)
      requires Allocatable(bytes)
      ensures size == Words(bytes) && RegionBytes(NewCapacity(size)) == 24 + 8 * NewCapacity(size)
    {
      size := (bytes + 7) % 18446744073709551616 / 8;
      RegionHoldsExactlyWhen(bytes);
    }

    /** The part of arena_alloc that finds a region with room, or adds one */
    method Room(size: nat) returns (r: Region, ghost j: nat)
      requires Valid() && RegionBytes(NewCapacity(size)) == 24 + 8 * NewCapacity(size)
      modifies this, regions
      ensures Valid() && old(regions) <= regions && FreshFrom(regions, |old(regions)|)
      ensures j == Place(old(shape), size) < |regions| && r == regions[j] && shape.at <= j
      ensures shape == if j < |old(regions)| then old(shape)
                       else Shape(old(shape).caps + [NewCapacity(size)], old(shape).counts + [0], j)
    {
      if end == null {
        AddRegion(null, size);
        r, j := end, 0;
      } else {
        r, j := Skip(size);
        assert RegionAt(regions, shape, j);
        if r.count + size > r.capacity {
          AddRegion(r, size);
          r, j := end, j + 1;
        }
      }
    }

    /** arena_snapshot; the mark is a region and its count. */
    method Snapshot() returns (region: Region?, count: nat)
      requires Valid()
      ensures region == end && count == MarkCount(shape)
    {
      region, count := end, 0;
      if end != null {
        assert RegionAt(regions, shape, shape.at);
        count := end.count;
      }
    }

    /** Empty the regions from the i-th on. */
    method Clear(first: Region?, ghost i: nat)
      requires Chain(regions, shape) && i <= |regions| && first == if i < |regions| then regions[i] else null
      modifies this`shape, regions
      ensures shape == old(shape).(counts := old(shape).counts[..i] + Zeros(|regions| - i)) && Chain(regions, shape)
    {
      var r := first;
      ghost var k := i;
      while r != null
        invariant i <= k <= |regions| && r == (if k < |regions| then regions[k] else null)
        invariant shape == old(shape).(counts := old(shape).counts[..i] + Zeros(k - i) + old(shape).counts[k..])
        invariant Chain(regions, shape)
        decreases |regions| - k
      {
        r := ClearOne(r, k);
        k := k + 1;
      }
    }

    method ClearOne(r: Region, ghost k: nat) returns (next: Region?)
      requires Chain(regions, shape) && k < |regions| && r == regions[k]
      modifies this`shape, r`count
      ensures next == if k + 1 < |regions| then regions[k + 1] else null
      ensures shape == old(shape).(counts := old(shape).counts[k := 0]) && Chain(regions, shape)
    {
      assert RegionAt(regions, shape, k);
      r.count := 0;
      next := r.next;
      shape := shape.(counts := shape.counts[k := 0]);
      forall i: nat | i < |regions|
        ensures RegionAt(regions, shape, i)
      {
        assert old(RegionAt(regions, shape, i));
      }
    }

    /** arena_reset */
    method Reset()
      requires Valid()
      modifies this`end, this`shape, regions
      ensures Valid() && shape == Emptied(old(shape))
    {
      Clear(begin, 0);
      SetEnd(begin, if regions == [] then -1 else 0);
    }

    method SetEnd(r: Region?, ghost k: int)
      requires Chain(regions, shape)
      modifies this`end, this`shape
      ensures end == r && shape == old(shape).(at := k) && Chain(regions, shape)
    {
      end, shape := r, shape.(at := k);
      forall i: nat | i < |regions|
        ensures RegionAt(regions, shape, i)
      {
        assert old(RegionAt(regions, shape, i));
      }
    }

    /** arena_rewind to a mark of the k-th region, or of the uninitialised arena */
    method Rewind(region: Region?, count: nat, ghost k: int)
      requires Valid() && -1 <= k < |regions| && region == if k < 0 then null else regions[k]
      requires k >= 0 ==> count <= shape.caps[k]
      modifies this`end, this`shape, regions
      ensures Valid() && shape == Rewound(old(shape), k, count)
    {
      if region == null {
        Reset();
        return;
      }
      SetCount(region, count, k);
      assert RegionAt(regions, shape, k);
      Clear(region.next, k + 1);
      SetEnd(region, k);
    }

    method SetCount(r: Region, count: nat, ghost k: nat)
      requires Chain(regions, shape) && k < |regions| && r == regions[k]
      modifies this`shape, r`count
      ensures shape == old(shape).(counts := old(shape).counts[k := count]) && Chain(regions, shape)
    {
      r.count := count;
      shape := shape.(counts := shape.counts[k := count]);
      forall i: nat | i < |regions|
        ensures RegionAt(regions, shape, i)
      {
        assert old(RegionAt(regions, shape, i));
      }
    }

    /** arena_trim */
    method Trim()
      requires Valid() && end != null
      modifies this`regions, this`shape, end`next
      ensures Valid() && shape == Trimmed(old(shape)) && regions == old(regions)[..shape.at + 1]
    {
      end.next := null;
      regions, shape := regions[..shape.at + 1], Trimmed(shape);
      forall i: nat | i < |regions|
        ensures RegionAt(regions, shape, i)
      {
        assert old(RegionAt(regions, shape, i));
      }
    }

    /** arena_realloc of the bytes from `from` on in the k-th region: a larger block elsewhere gets a copy of them. */
    method Realloc(region: Region, from: nat, oldBytes: nat, newBytes: nat, ghost k: nat) returns (r: Region, at: nat)
      requires Valid() && k < |regions| && region == regions[k]
      requires from + oldBytes <= 8 * shape.counts[k] && from + oldBytes <= region.data.Length
      requires newBytes > oldBytes ==> Allocatable(newBytes) && oldBytes <= 8 * Words(newBytes)
      modifies this, regions, DataOf(regions)
      ensures Valid()
      ensures newBytes <= oldBytes ==> r == region && at == from && shape == old(shape)
      ensures newBytes > oldBytes ==> shape == Allocated(old(shape), Words(newBytes)) && r == regions[shape.at]
      ensures at + oldBytes <= r.data.Length && r.data[at..at + oldBytes] == old(region.data[from..from + oldBytes])
      ensures newBytes > oldBytes ==> NewBlock(old(shape), Words(newBytes)) == Block(shape.at, at / 8, Words(newBytes))
      ensures newBytes <= oldBytes ==> forall d :: d in old(DataOf(regions)) ==> d[..] == old(d[..])
      ensures newBytes > oldBytes ==>
                forall d, p :: d in old(DataOf(regions)) && 0 <= p < d.Length ==>
                                 (d == r.data && at <= p < at + oldBytes) || d[p] == old(d[p])
    {
      if newBytes <= oldBytes {
        return region, from;
      }
      var word;
      r, word := Alloc(newBytes);
      at := 8 * word;
      assert RegionAt(regions, shape, shape.at) && regions[k] == region;
      BlockFits(old(shape), Words(newBytes));
      CopyBytes(region.data, from, r.data, at, oldBytes);
    }

    /** The copy loop of arena_realloc */
    static method CopyBytes(src: array<Byte>, from: nat, dst: array<Byte>, to: nat, n: nat)
      requires from + n <= src.Length && to + n <= dst.Length && (src == dst ==> from + n <= to)
      modifies dst
      ensures dst[to..to + n] == old(src[from..from + n])
      ensures forall p :: 0 <= p < dst.Length && !(to <= p < to + n) ==> dst[p] == old(dst[p])
    {
      ghost var bytes := src[from..from + n];
      for k := 0 to n
        invariant src[from..from + n] == bytes && dst[to..to + k] == bytes[..k]
        invariant forall p :: 0 <= p < dst.Length && !(to <= p < to + k) ==> dst[p] == old(dst[p])
      {
        assert src[from + k] == bytes[k];
        dst[to + k] := src[from + k];
        assert dst[to..to + k + 1] == dst[to..to + k] + [bytes[k]];
      }
    }
  }

  /** Making room and cutting the words off it is what an allocation does. */
  lemma RoomAndBump(s: Shape, size: nat)
    requires Fits(s)
    ensures var j := Place(s, size);
            var t := if j < |s.caps| then s else Shape(s.caps + [NewCapacity(size)], s.counts + [0], j);
            && Allocated(s, size) == Shape(t.caps, t.counts[j := t.counts[j] + size], j)
            && NewBlock(s, size) == Block(j, t.counts[j], size)
  {
    assert (s.counts + [0])[|s.counts| := size] == s.counts + [size];
  }

  /** A new block fits its region, and comes after everything that was used there. */
  lemma BlockFits(s: Shape, size: nat)
    requires Fits(s)
    ensures var b, t := NewBlock(s, size), Allocated(s, size);
            && t.at == b.region < |t.caps| && b.offset + size <= t.caps[b.region]
            && (b.region < |s.counts| ==> s.counts[b.region] <= b.offset)
  {
  }

  // Sizes are of 64 bits

  function Words(bytes: nat): nat {
    (bytes + 7) % 18446744073709551616 / 8
  }

  /** A block has room for the bytes it is asked for exactly when adding seven to their number does not wrap. */
  lemma BlockHoldsExactlyWhen(bytes: nat)
    requires bytes < 18446744073709551616
    ensures 8 * Words(bytes) >= bytes <==> bytes + 7 < 18446744073709551616
  {
  }

  /** What new_region asks malloc for, with 24 bytes for the fields */
  function RegionBytes(capacity: nat): nat {
    (24 + 8 * capacity) % 18446744073709551616
  }

  /** The request for a new region does not wrap: the size is not within 31 of 2^64, or so near that it has wrapped. */
  predicate Allocatable(bytes: nat) {
    bytes < 18446744073709551585 || 18446744073709551609 <= bytes < 18446744073709551616
  }

  /** A new region has room for its capacity exactly then. */
  lemma RegionHoldsExactlyWhen(bytes: nat)
    requires bytes < 18446744073709551616
    ensures RegionBytes(NewCapacity(Words(bytes))) == 24 + 8 * NewCapacity(Words(bytes)) <==> Allocatable(bytes)
  {
  }

  /** Eight bytes less than 2^64 need a region of 16 bytes, its fields included; one byte less than 2^64 are no
      words. */
  lemma WrappedSizes()
    ensures RegionBytes(NewCapacity(Words(18446744073709551608))) == 16
    ensures Words(18446744073709551615) == 0
  {
  }

  // Runs with nested marks

  datatype Saved = Saved(shape: Shape, live: nat)

  /** An arena in use: its shape, the marks that have not been rewound, and the live blocks in the order of
      allocation. */
  datatype State = State(shape: Shape, marks: seq<Saved>, live: seq<Block>)

  datatype Command = Alloc(bytes: nat) | Snapshot | Rewind | Reset | Trim

  /** A region of the size asked for can be had, a rewind needs a mark, a reset leaves none that could still be rewound
      to, and a trim needs a region. */
  predicate Legal(s: State, c: Command) {
    match c
    case Alloc(bytes) => Allocatable(bytes)
    case Snapshot => true
    case Rewind => s.marks != []
    case Reset => s.marks == []
    case Trim => s.shape.at >= 0
  }

  /** A rewind goes to the latest mark; what has been allocated since is no longer live. */
  ghost function Next(s: State, c: Command): State
    requires Inv(s) && Legal(s, c)
  {
    match c
    case Alloc(bytes) =>
      State(Allocated(s.shape, Words(bytes)), s.marks, s.live + [NewBlock(s.shape, Words(bytes))])
    case Snapshot => s.(marks := s.marks + [Saved(s.shape, |s.live|)])
    case Rewind =>
      var m := s.marks[|s.marks| - 1];
      State(Rewound(s.shape, m.shape.at, MarkCount(m.shape)), s.marks[..|s.marks| - 1], s.live[..m.live])
    case Reset => State(Emptied(s.shape), [], [])
    case Trim => s.(shape := Trimmed(s.shape))
  }

  ghost predicate MarkOk(m: Saved, s: State)
    requires Fits(s.shape)
  {
    Fits(m.shape) && Grew(m.shape, s.shape) && m.live <= |s.live| && AllWithin(s.live[..m.live], m.shape)
  }

  /** Every earlier mark was there when the later one was taken. */
  ghost predicate Nested(m: Saved, n: Saved) {
    Fits(m.shape) && Fits(n.shape) && Grew(m.shape, n.shape) && m.live <= n.live
  }

  ghost predicate Inv(s: State) {
    && Fits(s.shape) && AllWithin(s.live, s.shape) && AllDisjoint(s.live)
    && (forall i :: 0 <= i < |s.marks| ==> MarkOk(s.marks[i], s))
    && (forall i, j :: 0 <= i < j < |s.marks| ==> Nested(s.marks[i], s.marks[j]))
  }

  lemma NextKeepsInv(s: State, c: Command)
    requires Inv(s) && Legal(s, c)
    ensures Inv(Next(s, c))
  {
    match c
    case Alloc(bytes) => AllocKeepsInv(s, bytes);
    case Snapshot => SnapshotKeepsInv(s);
    case Rewind => RewindKeepsInv(s);
    case Reset =>
    case Trim => TrimKeepsInv(s);
  }

  lemma TrimKeepsInv(s: State)
    requires Inv(s) && s.shape.at >= 0
    ensures Inv(Next(s, Trim))
  {
    var t := Next(s, Trim);
    forall i | 0 <= i < |t.marks|
      ensures MarkOk(t.marks[i], t)
    {
      assert MarkOk(s.marks[i], s);
      TrimGrows(s.marks[i].shape, s.shape);
    }
    forall i | 0 <= i < |t.live|
      ensures Within(t.live[i], t.shape)
    {
      assert Within(s.live[i], s.shape);
    }
  }

  lemma TrimGrows(a: Shape, t: Shape)
    requires Fits(a) && Fits(t) && Grew(a, t) && t.at >= 0
    ensures Fits(Trimmed(t)) && Grew(a, Trimmed(t))
  {
  }

  lemma AllocKeepsInv(s: State, bytes: nat)
    requires Inv(s) && Allocatable(bytes)
    ensures Inv(Next(s, Alloc(bytes)))
  {
    var t, size := Next(s, Alloc(bytes)), Words(bytes);
    NewBlockIsApart(s.shape, size, s.live);
    AllocatedFits(s.shape, size);
    forall i | 0 <= i < |t.marks|
      ensures MarkOk(t.marks[i], t)
    {
      var m := s.marks[i];
      assert MarkOk(m, s);
      AllocationGrows(m.shape, s.shape, size);
      assert t.live[..m.live] == s.live[..m.live];
    }
  }

  lemma SnapshotKeepsInv(s: State)
    requires Inv(s)
    ensures Inv(Next(s, Snapshot))
  {
    var t, m := Next(s, Snapshot), Saved(s.shape, |s.live|);
    assert s.live[..|s.live|] == s.live;
    assert MarkOk(m, t);
    forall i | 0 <= i < |s.marks|
      ensures MarkOk(s.marks[i], t) && Nested(s.marks[i], m)
    {
      assert MarkOk(s.marks[i], s);
    }
  }

  lemma RewindKeepsInv(s: State)
    requires Inv(s) && s.marks != []
    ensures Inv(Next(s, Rewind)) && Fits(s.marks[|s.marks| - 1].shape)
    ensures Restored(s.marks[|s.marks| - 1].shape, Next(s, Rewind).shape)
  {
    var t, m := Next(s, Rewind), s.marks[|s.marks| - 1];
    assert MarkOk(m, s);
    RewindRestores(m.shape, s.shape);
    RewoundHasInv(s, t);
  }

  lemma RewoundHasInv(s: State, t: State)
    requires Inv(s) && s.marks != [] && Fits(t.shape) && t.marks == s.marks[..|s.marks| - 1]
    requires var m := s.marks[|s.marks| - 1];
             && Fits(m.shape) && Restored(m.shape, t.shape) && m.live <= |s.live| && t.live == s.live[..m.live]
             && AllWithin(t.live, m.shape)
    ensures Inv(t)
  {
    RestoredWithin(t.live, s.marks[|s.marks| - 1].shape, t.shape);
    RewindKeepsMarks(s, t);
    PrefixesStay(s, t);
  }

  lemma PrefixesStay(s: State, t: State)
    requires Inv(s) && t.live <= s.live && t.marks <= s.marks
    ensures AllDisjoint(t.live) && forall i, j :: 0 <= i < j < |t.marks| ==> Nested(t.marks[i], t.marks[j])
  {
  }

  lemma RewindKeepsMarks(s: State, t: State)
    requires Inv(s) && s.marks != [] && Fits(t.shape) && t.marks == s.marks[..|s.marks| - 1]
    requires var m := s.marks[|s.marks| - 1];
             Fits(m.shape) && Restored(m.shape, t.shape) && m.live <= |s.live| && t.live == s.live[..m.live]
    ensures forall i :: 0 <= i < |t.marks| ==> MarkOk(t.marks[i], t)
  {
    var m := s.marks[|s.marks| - 1];
    forall i | 0 <= i < |t.marks|
      ensures MarkOk(t.marks[i], t)
    {
      assert MarkOk(s.marks[i], s) && Nested(s.marks[i], m);
      MarkSurvives(s.marks[i], m, s, t);
    }
  }

  lemma MarkSurvives(n: Saved, m: Saved, s: State, t: State)
    requires Fits(s.shape) && Fits(t.shape) && MarkOk(n, s) && Nested(n, m) && Restored(m.shape, t.shape)
    requires m.live <= |s.live| && t.live == s.live[..m.live]
    ensures MarkOk(n, t)
  {
    RestoredGrew(n.shape, m.shape, t.shape);
    assert t.live[..n.live] == s.live[..n.live];
  }

  lemma RestoredWithin(bs: seq<Block>, a: Shape, t: Shape)
    requires Fits(a) && AllWithin(bs, a) && Restored(a, t)
    ensures AllWithin(bs, t)
  {
    forall i | 0 <= i < |bs|
      ensures Within(bs[i], t)
    {
      assert Within(bs[i], a);
    }
  }

  /** A state that some run reaches. */
  type Proper = s: State | Inv(s) ghost witness State(EMPTY, [], [])

  ghost function Step(s: State, c: Command): (t: Proper)
    requires Inv(s) && Legal(s, c)
  {
    NextKeepsInv(s, c);
    Next(s, c)
  }

  ghost predicate CanRun(s: State, cs: seq<Command>)
    requires Inv(s)
    decreases |cs|
  {
    cs == [] || (Legal(s, cs[0]) && CanRun(Step(s, cs[0]), cs[1..]))
  }

  ghost function End(s: State, cs: seq<Command>): (t: Proper)
    requires Inv(s) && CanRun(s, cs)
    decreases |cs|
  {
    if cs == [] then s else End(Step(s, cs[0]), cs[1..])
  }

  /** An arena that has not been used. */
  ghost function Start(): Proper {
    State(EMPTY, [], [])
  }

  /** In every run the live blocks lie in the used parts of their regions, within their capacity and apart from each
      other, and regions after the end are empty. */
  lemma RunIsSafe(cs: seq<Command>)
    requires CanRun(Start(), cs)
    ensures var t := End(Start(), cs); Fits(t.shape) && AllWithin(t.live, t.shape) && AllDisjoint(t.live)
  {
  }

  /** The commands never rewind below that many marks, and end with them. */
  ghost predicate Balanced(s: State, cs: seq<Command>, depth: nat)
    requires Inv(s) && CanRun(s, cs)
    decreases |cs|
  {
    if cs == [] then |s.marks| == depth
    else |Step(s, cs[0]).marks| >= depth && Balanced(Step(s, cs[0]), cs[1..], depth)
  }

  lemma {:induction false} BalancedKeeps(s: State, cs: seq<Command>, depth: nat)
    requires Inv(s) && CanRun(s, cs) && Balanced(s, cs, depth) && 0 < depth <= |s.marks|
    ensures End(s, cs).marks == s.marks[..depth]
    ensures s.marks[depth - 1].live <= |s.live| && s.marks[depth - 1].live <= |End(s, cs).live|
    ensures End(s, cs).live[..s.marks[depth - 1].live] == s.live[..s.marks[depth - 1].live]
    decreases |cs|
  {
    if cs == [] {
      assert MarkOk(s.marks[depth - 1], s) && s.marks[..depth] == s.marks;
    } else {
      StepKeepsLive(s, cs[0], depth);
      BalancedKeeps(Step(s, cs[0]), cs[1..], depth);
    }
  }

  lemma StepKeepsLive(s: State, c: Command, depth: nat)
    requires Inv(s) && Legal(s, c) && 0 < depth <= |s.marks| && depth <= |Step(s, c).marks|
    ensures Step(s, c).marks[..depth] == s.marks[..depth] && Step(s, c).marks[depth - 1] == s.marks[depth - 1]
    ensures s.marks[depth - 1].live <= |s.live| && s.marks[depth - 1].live <= |Step(s, c).live|
    ensures Step(s, c).live[..s.marks[depth - 1].live] == s.live[..s.marks[depth - 1].live]
  {
    assert MarkOk(s.marks[depth - 1], s) && MarkOk(Step(s, c).marks[depth - 1], Step(s, c));
  }

  /** A snapshot, anything balanced, and the rewind to it: the arena uses what it used before, plus empty regions, and
      the same blocks are live. */
  lemma ScopeRestores(s: State, cs: seq<Command>)
    requires Inv(s) && CanRun(Step(s, Snapshot), cs) && Balanced(Step(s, Snapshot), cs, |s.marks| + 1)
    ensures End(Step(s, Snapshot), cs).marks != []
    ensures Restored(s.shape, Step(End(Step(s, Snapshot), cs), Rewind).shape)
    ensures Step(End(Step(s, Snapshot), cs), Rewind).live == s.live
    ensures Step(End(Step(s, Snapshot), cs), Rewind).marks == s.marks
  {
    var u := Step(s, Snapshot);
    BalancedKeeps(u, cs, |s.marks| + 1);
    var v := End(u, cs);
    assert v.marks == u.marks && v.marks[|s.marks|] == Saved(s.shape, |s.live|);
    RewindKeepsInv(v);
  }

  // The same runs on an arena

  /** A mark, with the number of blocks that its owner held then */
  datatype Mark = Mark(region: Region?, count: nat, held: nat)

  /** What arena_alloc has returned */
  datatype Pointer = Pointer(region: Region, offset: nat)

  ghost predicate MarkAt(regions: seq<Region>, m: Saved, mark: Mark) {
    && -1 <= m.shape.at < |regions| && m.shape.at < |m.shape.counts| && mark.count == MarkCount(m.shape)
    && mark.region == (if m.shape.at < 0 then null else regions[m.shape.at]) && mark.held == m.live
  }

  ghost predicate BlockAt(regions: seq<Region>, b: Block, p: Pointer) {
    b.region < |regions| && p == Pointer(regions[b.region], b.offset)
  }

  /** Marks and blocks are those of the state. */
  ghost predicate Mirrors(regions: seq<Region>, s: State, marks: seq<Mark>, held: seq<Pointer>) {
    && |marks| == |s.marks| && |held| == |s.live|
    && (forall i :: 0 <= i < |marks| ==> MarkAt(regions, s.marks[i], marks[i]))
    && (forall i :: 0 <= i < |held| ==> BlockAt(regions, s.live[i], held[i]))
  }

  lemma MirrorsLater(regions: seq<Region>, regions': seq<Region>, s: State, marks: seq<Mark>, held: seq<Pointer>)
    requires Mirrors(regions, s, marks, held) && Inv(s) && s.shape.at < |regions|
    requires regions[..s.shape.at + 1] <= regions'
    ensures Mirrors(regions', s, marks, held)
  {
    forall i | 0 <= i < |marks|
      ensures MarkAt(regions', s.marks[i], marks[i])
    {
      assert MarkOk(s.marks[i], s) && MarkAt(regions, s.marks[i], marks[i]);
    }
    forall i | 0 <= i < |held|
      ensures BlockAt(regions', s.live[i], held[i])
    {
      assert Within(s.live[i], s.shape) && BlockAt(regions, s.live[i], held[i]);
    }
  }

  method DoAlloc(a: Arena, bytes: nat, marks: seq<Mark>, held: seq<Pointer>, ghost s: State)
    returns (held': seq<Pointer>)
    requires a.Valid() && Inv(s) && a.shape == s.shape && Mirrors(a.regions, s, marks, held) && Allocatable(bytes)
    modifies a, a.regions
    ensures a.Valid() && a.shape == Next(s, Alloc(bytes)).shape
    ensures Mirrors(a.regions, Next(s, Alloc(bytes)), marks, held')
    ensures old(a.regions) <= a.regions && FreshFrom(a.regions, |old(a.regions)|)
  {
    ghost var regions := a.regions;
    var r, offset := a.Alloc(bytes);
    MirrorsLater(regions, a.regions, s, marks, held);
    BlockFits(s.shape, Words(bytes));
    held' := held + [Pointer(r, offset)];
  }

  method DoRewind(a: Arena, marks: seq<Mark>, held: seq<Pointer>, ghost s: State)
    returns (marks': seq<Mark>, held': seq<Pointer>)
    requires a.Valid() && Inv(s) && a.shape == s.shape && Mirrors(a.regions, s, marks, held) && s.marks != []
    modifies a`end, a`shape, a.regions
    ensures a.Valid() && a.shape == Next(s, Rewind).shape && Mirrors(a.regions, Next(s, Rewind), marks', held')
  {
    var n := |marks| - 1;
    ghost var m := s.marks[n];
    assert MarkOk(m, s) && MarkAt(a.regions, m, marks[n]);
    assert m.shape.at >= 0 ==> m.shape.caps[..m.shape.at + 1][m.shape.at] == s.shape.caps[..m.shape.at + 1][m.shape.at];
    a.Rewind(marks[n].region, marks[n].count, m.shape.at);
    marks', held' := marks[..n], held[..marks[n].held];
  }

  method Do(a: Arena, c: Command, marks: seq<Mark>, held: seq<Pointer>, ghost s: State)
    returns (marks': seq<Mark>, held': seq<Pointer>)
    requires a.Valid() && Inv(s) && a.shape == s.shape && Mirrors(a.regions, s, marks, held) && Legal(s, c)
    modifies a, a.regions
    ensures a.Valid() && a.shape == Next(s, c).shape && Mirrors(a.regions, Next(s, c), marks', held')
    ensures forall i {:trigger a.regions[i]} ::
              0 <= i < |a.regions| ==> a.regions[i] in old(a.regions) || fresh(a.regions[i])
  {
    marks', held' := marks, held;
    match c {
      case Alloc(bytes) =>
        held' := DoAlloc(a, bytes, marks, held, s);
      case Snapshot =>
        var region, count := a.Snapshot();
        marks' := marks + [Mark(region, count, |held|)];
      case Rewind =>
        marks', held' := DoRewind(a, marks, held, s);
      case Reset =>
        a.Reset();
        held' := [];
      case Trim =>
        ghost var regions := a.regions;
        a.Trim();
        MirrorsLater(regions, a.regions, s, marks, held);
    }
  }

  /** Every run on an arena leaves it, and the marks and blocks of its user, as the specification says. */
  method Run(a: Arena, cs: seq<Command>, marks: seq<Mark>, held: seq<Pointer>, ghost s: Proper)
    returns (marks': seq<Mark>, held': seq<Pointer>)
    requires a.Valid() && a.shape == s.shape && Mirrors(a.regions, s, marks, held) && CanRun(s, cs)
    modifies a, a.regions
    ensures a.Valid() && a.shape == End(s, cs).shape && Mirrors(a.regions, End(s, cs), marks', held')
    decreases |cs|
  {
    if cs == [] {
      return marks, held;
    }
    marks', held' := Do(a, cs[0], marks, held, s);
    marks', held' := Run(a, cs[1..], marks', held', Step(s, cs[0]));
  }

  /** And so does every run on a new one. */
  method RunNew(cs: seq<Command>) returns (a: Arena, marks: seq<Mark>, held: seq<Pointer>)
    requires CanRun(Start(), cs)
    ensures a.Valid() && a.shape == End(Start(), cs).shape && Mirrors(a.regions, End(Start(), cs), marks, held)
  {
    a := new Arena();
    marks, held := Run(a, cs, [], [], Start());
  }
}
