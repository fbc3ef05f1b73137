/** The hash index of stb_ds: for every slot a stored hash and the position of an
    entry in the dense array.  The invariants are stated on the slot contents as
    sequences, so that they can be reasoned about without the heap. */
module HashTables {
  import opened Basics
  import opened Probing

  const INDEX_EMPTY: int := -1
  const INDEX_DELETED: int := -2
  const HASH_EMPTY: nat := 0
  const HASH_DELETED: nat := 1

  /** Hashes 0 and 1 mark empty and deleted slots, so keys never store them. */
  function StoredHash(h: nat): (r: nat)
    ensures r >= 2
  {
    if h < 2 then h + 2 else h
  }

  ghost predicate SlotStates(hs: seq<nat>, ix: seq<int>) {
    && |hs| == |ix|
    && forall s {:trigger ix[s]} {:trigger hs[s]} :: 0 <= s < |ix| ==>
         && ix[s] >= INDEX_DELETED
         && (ix[s] == INDEX_EMPTY <==> hs[s] == HASH_EMPTY)
         && (ix[s] == INDEX_DELETED <==> hs[s] == HASH_DELETED)
  }

  /** The first k slots probed from slot `home` are not empty. */
  ghost predicate ClearPath(hs: seq<nat>, home: nat, k: nat)
    requires WholeBuckets(|hs|)
  {
    forall j: nat :: j < k ==> hs[ProbeSlot(home, |hs|, j)] != HASH_EMPTY
  }

  /** Slot s is probe number k for the hash it stores, and no empty slot comes before it. */
  ghost predicate OnPath(hs: seq<nat>, s: nat, k: nat)
    requires WholeBuckets(|hs|) && s < |hs|
  {
    && k < |hs|
    && ProbeSlot(hs[s] % |hs|, |hs|, k) == s
    && ClearPath(hs, hs[s] % |hs|, k)
  }

  ghost predicate TableOk(hs: seq<nat>, ix: seq<int>, rank: seq<nat>) {
    && IsSlotCount(|hs|) && WholeBuckets(|hs|)
    && SlotStates(hs, ix)
    && |rank| == |hs|
    && forall s: nat {:trigger rank[s]} {:trigger ix[s]} :: s < |ix| && ix[s] >= 0 ==> OnPath(hs, s, rank[s])
  }

  /** Every slot in use points at an entry and stores that entry's hash. */
  ghost predicate Refers(hs: seq<nat>, ix: seq<int>, hk: seq<nat>)
    requires |hs| == |ix|
  {
    forall s {:trigger ix[s]} :: 0 <= s < |ix| && ix[s] >= 0 ==> ix[s] < |hk| && hs[s] == hk[ix[s]]
  }

  /** Slots in use and entries correspond one to one: `home[i]` is the slot of entry i. */
  ghost predicate Linked(hs: seq<nat>, ix: seq<int>, hk: seq<nat>, home: seq<nat>) {
    && |hs| == |ix| && |home| == |hk|
    && (forall i {:trigger home[i]} :: 0 <= i < |hk| ==> home[i] < |ix| && ix[home[i]] == i && hs[home[i]] == hk[i])
    && (forall s {:trigger ix[s]} :: 0 <= s < |ix| && ix[s] >= 0 ==> ix[s] < |hk| && home[ix[s]] == s)
  }

  /** `used` and `deleted` are the exact numbers of slots in use and of tombstones. */
  ghost predicate Counts(ix: seq<int>, used: int, deleted: int) {
    && multiset(ix)[INDEX_DELETED] == deleted
    && multiset(ix)[INDEX_EMPTY] == |ix| - used - deleted
  }

  lemma LinkedRefers(hs: seq<nat>, ix: seq<int>, hk: seq<nat>, home: seq<nat>)
    requires Linked(hs, ix, hk, home)
    ensures Refers(hs, ix, hk)
  {
    forall s | 0 <= s < |ix| && ix[s] >= 0
      ensures ix[s] < |hk| && hs[s] == hk[ix[s]]
    {
      assert home[ix[s]] == s;
    }
  }

  // ----- what the four kinds of slot update keep

  lemma Occupy(hs: seq<nat>, ix: seq<int>, rank: seq<nat>, t: nat, k: nat, h: nat, i: nat)
    requires TableOk(hs, ix, rank) && t < |ix| && h >= 2
    requires k < |hs| && ProbeSlot(h % |hs|, |hs|, k) == t && ClearPath(hs, h % |hs|, k)
    ensures TableOk(hs[t := h], ix[t := i], rank[t := k])
  {
    var hs', ix', rank' := hs[t := h], ix[t := i], rank[t := k];
    forall s: nat | s < |ix'| && ix'[s] >= 0
      ensures OnPath(hs', s, rank'[s])
    {
      if s != t {
        assert ix[s] >= 0 && OnPath(hs, s, rank[s]);
      }
    }
  }

  lemma Vacate(hs: seq<nat>, ix: seq<int>, rank: seq<nat>, t: nat)
    requires TableOk(hs, ix, rank) && t < |ix| && ix[t] >= 0
    ensures TableOk(hs[t := HASH_DELETED], ix[t := INDEX_DELETED], rank)
  {
    var hs', ix' := hs[t := HASH_DELETED], ix[t := INDEX_DELETED];
    forall s: nat | s < |ix'| && ix'[s] >= 0
      ensures OnPath(hs', s, rank[s])
    {
      assert ix[s] >= 0 && OnPath(hs, s, rank[s]);
    }
  }

  lemma Repoint(hs: seq<nat>, ix: seq<int>, rank: seq<nat>, t: nat, i: nat)
    requires TableOk(hs, ix, rank) && t < |ix| && ix[t] >= 0
    ensures TableOk(hs, ix[t := i], rank)
  {
    forall s: nat | s < |ix| && ix[t := i][s] >= 0
      ensures OnPath(hs, s, rank[s])
    {
      assert ix[s] >= 0;
    }
  }

  /** A tombstone does not end a search, an empty slot does: when probe k meets one,
      every slot in use with this hash lies on the part already seen. */
  lemma SearchIsComplete(hs: seq<nat>, ix: seq<int>, rank: seq<nat>, h: nat, k: nat, s: nat)
    requires TableOk(hs, ix, rank) && s < |ix| && ix[s] >= 0 && hs[s] == h
    requires hs[ProbeSlot(h % |hs|, |hs|, k)] == HASH_EMPTY
    ensures exists j: nat :: j < k && ProbeSlot(h % |hs|, |hs|, j) == s
  {
    assert OnPath(hs, s, rank[s]);
  }

  lemma PathStopsAtEmpty(hs: seq<nat>, home: nat, k: nat, e: nat)
    requires WholeBuckets(|hs|) && ClearPath(hs, home, k)
    requires hs[ProbeSlot(home, |hs|, e)] == HASH_EMPTY
    ensures k <= e
  {
  }

  /** As long as used and deleted slots do not fill the table, every probe meets an empty slot. */
  lemma EmptySlotAhead(hs: seq<nat>, ix: seq<int>, rank: seq<nat>, used: int, deleted: int, h: nat) returns (k: nat)
    requires TableOk(hs, ix, rank) && Counts(ix, used, deleted) && used + deleted < |ix|
    ensures k < |hs| && hs[ProbeSlot(h % |hs|, |hs|, k)] == HASH_EMPTY
  {
    assert INDEX_EMPTY in multiset(ix);
    var s: nat :| s < |ix| && ix[s] == INDEX_EMPTY;
    k := ProbeReaches(h % |hs|, |hs|, s);
  }

  // ----- rebuilding

  ghost function InUse(ix: seq<int>): nat {
    if ix == [] then 0 else InUse(ix[..|ix| - 1]) + (if ix[|ix| - 1] >= 0 then 1 else 0)
  }

  lemma {:induction false} InUseCounts(ix: seq<int>)
    requires forall s :: 0 <= s < |ix| ==> ix[s] >= INDEX_DELETED
    ensures InUse(ix) == |ix| - multiset(ix)[INDEX_EMPTY] - multiset(ix)[INDEX_DELETED]
  {
    if ix != [] {
      InUseCounts(ix[..|ix| - 1]);
      assert ix == ix[..|ix| - 1] + [ix[|ix| - 1]];
    }
  }

  lemma {:induction false} InUseGrows(ix: seq<int>, c: nat)
    requires c <= |ix|
    ensures InUse(ix[..c]) <= InUse(ix)
    decreases |ix| - c
  {
    if c == |ix| {
      assert ix[..c] == ix;
    } else {
      InUseGrows(ix, c + 1);
      assert ix[..c + 1][..c] == ix[..c];
    }
  }

  /** Linked, restricted to the entries whose old slot lies before slot c. */
  ghost predicate LinkedUpTo(hs: seq<nat>, ix: seq<int>, hk: seq<nat>, home: seq<nat>, old_home: seq<nat>, c: nat) {
    && |hs| == |ix| && |home| == |hk| == |old_home|
    && (forall i {:trigger home[i]} :: 0 <= i < |hk| && old_home[i] < c ==>
          home[i] < |ix| && ix[home[i]] == i && hs[home[i]] == hk[i])
    && (forall s {:trigger ix[s]} :: 0 <= s < |ix| && ix[s] >= 0 ==>
          ix[s] < |hk| && old_home[ix[s]] < c && home[ix[s]] == s)
  }

  lemma LinkOneMore(hs: seq<nat>, ix: seq<int>, hk: seq<nat>, home: seq<nat>, ohs: seq<nat>, oix: seq<int>,
                    oldHome: seq<nat>, c: nat, t: nat)
    requires LinkedUpTo(hs, ix, hk, home, oldHome, c) && Linked(ohs, oix, hk, oldHome)
    requires c < |oix| && oix[c] >= 0 && t < |ix| && ix[t] < 0
    ensures oix[c] < |hk|
    ensures LinkedUpTo(hs[t := ohs[c]], ix[t := oix[c]], hk, home[oix[c] := t], oldHome, c + 1)
  {
  }

  lemma LinkNoMore(hs: seq<nat>, ix: seq<int>, hk: seq<nat>, home: seq<nat>, ohs: seq<nat>, oix: seq<int>,
                   oldHome: seq<nat>, c: nat)
    requires LinkedUpTo(hs, ix, hk, home, oldHome, c) && Linked(ohs, oix, hk, oldHome)
    requires c < |oix| && oix[c] < 0
    ensures LinkedUpTo(hs, ix, hk, home, oldHome, c + 1)
  {
  }

  lemma LinkedAtEnd(hs: seq<nat>, ix: seq<int>, hk: seq<nat>, home: seq<nat>, ohs: seq<nat>, oix: seq<int>,
                    oldHome: seq<nat>)
    requires LinkedUpTo(hs, ix, hk, home, oldHome, |oix|) && Linked(ohs, oix, hk, oldHome)
    ensures Linked(hs, ix, hk, home)
  {
  }

  lemma InUseStep(ix: seq<int>, c: nat)
    requires c < |ix|
    ensures InUse(ix[..c + 1]) == InUse(ix[..c]) + (if ix[c] >= 0 then 1 else 0)
  {
    assert ix[..c + 1][..c] == ix[..c];
  }

  lemma ThresholdsLeaveRoom(n: nat)
    requires IsSlotCount(n)
    ensures (n - n / 4) + (n / 8 + n / 16) < n
  {
    var m: nat :| n == 8 * Pow2(m);
    if m > 0 {
      assert Pow2(m) == 2 * Pow2(m - 1);
    }
  }

  class HashIndex {
    const slotCount: nat
    const hash: array<nat>
    const index: array<int>
    const seed: nat
    const usedThreshold: int
    const tombstoneThreshold: int
    const shrinkThreshold: int
    var usedCount: int
    var tombstoneCount: int
    ghost var rank: seq<nat>

    ghost predicate Shape()
      reads this, hash, index
    {
      && hash.Length == index.Length == slotCount
      && hash as object != index as object
      && TableOk(hash[..], index[..], rank)
      && usedThreshold == slotCount - slotCount / 4
      && tombstoneThreshold == slotCount / 8 + slotCount / 16
      && shrinkThreshold == (if slotCount <= 8 then 0 else slotCount / 4)
    }

    ghost predicate Valid()
      reads this, hash, index
    {
      Shape() && Counts(index[..], usedCount, tombstoneCount)
    }

    /** Not too full, not too many tombstones, and, above the least size, at least a quarter in use */
    ghost predicate WithinThresholds()
      reads this
    {
      shrinkThreshold <= usedCount <= usedThreshold && tombstoneCount <= tombstoneThreshold
    }

    /** An index of n empty slots. */
    constructor (n: nat, seed: nat)
      requires IsSlotCount(n)
      ensures slotCount == n && this.seed == seed && usedCount == 0 && tombstoneCount == 0
      ensures Valid() && fresh(hash) && fresh(index)
      ensures forall s :: 0 <= s < n ==> index[s] == INDEX_EMPTY
    {
      slotCount := n;
      this.seed := seed;
      hash := new nat[n](_ => HASH_EMPTY);
      index := new int[n](_ => INDEX_EMPTY);
      usedThreshold := n - n / 4;
      tombstoneThreshold := n / 8 + n / 16;
      shrinkThreshold := if n <= 8 then 0 else n / 4;
      usedCount := 0;
      tombstoneCount := 0;
      rank := seq(n, _ => 0);
      new;
      SlotCountFacts(n);
      AllEmpty(index[..]);
    }

    /** One round of a rebuild probe: the bucket of pos, from pos to its end, then from its start. */
    method ScanForEmpty(pos: nat, ghost home: nat, ghost r: nat) returns (t: int, ghost k: nat)
      requires WholeBuckets(slotCount) && hash.Length == slotCount
      requires AtRound(home, slotCount, r, pos) && ClearPath(hash[..], home, 8 * r)
      ensures t == -1 ==> ClearPath(hash[..], home, 8 * (r + 1))
      ensures t != -1 ==> 0 <= t < slotCount && hash[t] == HASH_EMPTY
      ensures t != -1 ==> ProbeSlot(home, slotCount, k) == t && ClearPath(hash[..], home, k)
    {
      ghost var n, hs := slotCount, hash[..];
      var bucket, limit := pos - pos % 8, pos % 8;
      var z := limit;
      k := 8 * r;
      while z < 8
        invariant limit <= z <= 8 && k == 8 * r + z - limit && ClearPath(hs, home, k)
      {
        ProbeOfEntry(home, n, r, pos, z);
        if hash[bucket + z] == HASH_EMPTY {
          return bucket + z, k;
        }
        z, k := z + 1, k + 1;
      }
      z := 0;
      while z < limit
        invariant 0 <= z <= limit && k == 8 * r + 8 - limit + z && ClearPath(hs, home, k)
      {
        ProbeOfEntry(home, n, r, pos, z);
        if hash[bucket + z] == HASH_EMPTY {
          return bucket + z, k;
        }
        z, k := z + 1, k + 1;
      }
      return -1, k;
    }

    /** The probe loop of a rebuild: the first empty slot in the probe order of h. */
    method ProbeForEmpty(h: nat, ghost empty: nat) returns (t: int, ghost k: nat)
      requires WholeBuckets(slotCount) && hash.Length == slotCount
      requires empty < slotCount && hash[ProbeSlot(h % slotCount, slotCount, empty)] == HASH_EMPTY
      ensures 0 <= t < slotCount && hash[t] == HASH_EMPTY
      ensures k < slotCount && ProbeSlot(h % slotCount, slotCount, k) == t
      ensures ClearPath(hash[..], h % slotCount, k)
    {
      ghost var n, hs, home, r := slotCount, hash[..], h % slotCount, 0;
      var pos: nat, step: nat := h % slotCount, 8;
      FirstRound(pos, n);
      while true
        invariant AtRound(home, n, r, pos) && step == 8 * (r + 1)
        invariant ClearPath(hs, home, 8 * r)
        decreases n - 8 * r
      {
        t, k := ScanForEmpty(pos, home, r);
        if t != -1 {
          PathStopsAtEmpty(hs, home, k, empty);
          return;
        }
        PathStopsAtEmpty(hs, home, 8 * (r + 1), empty);
        NextRound(home, n, r, pos, step);
        pos, step, r := (pos + step) % slotCount, step + 8, r + 1;
      }
    }

    method Insert(h: nat, i: nat, ghost used: nat) returns (t: nat)
      requires Shape() && Counts(index[..], used, 0) && used < slotCount && h >= 2
      modifies hash, index, this`rank
      ensures Shape() && Counts(index[..], used + 1, 0)
      ensures t < slotCount && old(index[t]) == INDEX_EMPTY
      ensures hash[..] == old(hash[..])[t := h] && index[..] == old(index[..])[t := i]
    {
      ghost var empty := EmptySlotAhead(hash[..], index[..], rank, used, 0, h);
      ghost var k: nat;
      t, k := ProbeForEmpty(h, empty);
      Place(t, k, h, i, used);
    }

    method Place(t: nat, ghost k: nat, h: nat, i: nat, ghost inserted: nat)
      requires Shape() && Counts(index[..], inserted, 0) && h >= 2
      requires t < slotCount && hash[t] == HASH_EMPTY
      requires k < slotCount && ProbeSlot(h % slotCount, slotCount, k) == t && ClearPath(hash[..], h % slotCount, k)
      modifies hash, index, this`rank
      ensures Shape() && Counts(index[..], inserted + 1, 0)
      ensures hash[..] == old(hash[..])[t := h] && index[..] == old(index[..])[t := i]
    {
      Occupy(hash[..], index[..], rank, t, k, h, i);
      hash[t] := h;
      index[t] := i;
      rank := rank[t := k];
      assert hash[..] == old(hash[..])[t := h];
      assert index[..] == old(index[..])[t := i];
    }

    /** Store a new entry in an empty slot or in a tombstone that the probe has passed. */
    method Take(t: nat, ghost k: nat, h: nat, i: nat)
      requires Valid() && h >= 2 && t < slotCount && index[t] < 0
      requires k < slotCount && ProbeSlot(h % slotCount, slotCount, k) == t && ClearPath(hash[..], h % slotCount, k)
      modifies this, hash, index
      ensures Valid() && usedCount == old(usedCount) + 1
      ensures tombstoneCount == old(tombstoneCount) - (if old(index[t]) == INDEX_DELETED then 1 else 0)
      ensures hash[..] == old(hash[..])[t := h] && index[..] == old(index[..])[t := i]
    {
      Occupy(hash[..], index[..], rank, t, k, h, i);
      if index[t] == INDEX_DELETED {
        tombstoneCount := tombstoneCount - 1;
      }
      usedCount := usedCount + 1;
      hash[t] := h;
      index[t] := i;
      rank := rank[t := k];
      assert hash[..] == old(hash[..])[t := h];
      assert index[..] == old(index[..])[t := i];
    }

    /** Turn a slot in use into a tombstone. */
    method Bury(t: nat)
      requires Valid() && t < slotCount && index[t] >= 0
      modifies this, hash, index
      ensures Valid() && usedCount == old(usedCount) - 1 && tombstoneCount == old(tombstoneCount) + 1
      ensures hash[..] == old(hash[..])[t := HASH_DELETED] && index[..] == old(index[..])[t := INDEX_DELETED]
    {
      Vacate(hash[..], index[..], rank, t);
      usedCount := usedCount - 1;
      tombstoneCount := tombstoneCount + 1;
      hash[t] := HASH_DELETED;
      index[t] := INDEX_DELETED;
      assert hash[..] == old(hash[..])[t := HASH_DELETED];
      assert index[..] == old(index[..])[t := INDEX_DELETED];
    }

    /** Make a slot in use point at another position of the dense array. */
    method Redirect(t: nat, i: nat)
      requires Valid() && t < slotCount && index[t] >= 0
      modifies index
      ensures Valid() && index[..] == old(index[..])[t := i] && hash[..] == old(hash[..])
    {
      Repoint(hash[..], index[..], rank, t, i);
      index[t] := i;
      assert index[..] == old(index[..])[t := i];
    }
  }

  /** Rebuild an index at n slots (double, equal or half size) from the slots in use of the old one.
      The stored hashes are reused; tombstones are dropped. */
  method Rebuild(n: nat, ot: HashIndex, ghost hk: seq<nat>, ghost oldHome: seq<nat>)
    returns (t: HashIndex, ghost home: seq<nat>)
    requires IsSlotCount(n) && ot.Valid() && Linked(ot.hash[..], ot.index[..], hk, oldHome)
    requires ot.usedCount < n
    ensures fresh(t) && fresh(t.hash) && fresh(t.index) && t.Valid()
    ensures t.slotCount == n && t.seed == ot.seed && t.usedCount == ot.usedCount && t.tombstoneCount == 0
    ensures Linked(t.hash[..], t.index[..], hk, home)
  {
    t := new HashIndex(n, ot.seed);
    t.usedCount := ot.usedCount;
    home := CopySlots(t, ot, hk, oldHome);
  }

  method CopySlots(t: HashIndex, ot: HashIndex, ghost hk: seq<nat>, ghost oldHome: seq<nat>)
    returns (ghost home: seq<nat>)
    requires ot.Valid() && Linked(ot.hash[..], ot.index[..], hk, oldHome)
    requires t.Shape() && (forall s :: 0 <= s < t.slotCount ==> t.index[s] == INDEX_EMPTY)
    requires t != ot && {t.hash as object, t.index} !! {ot.hash as object, ot.index}
    requires ot.usedCount < t.slotCount
    modifies t.hash, t.index, t`rank
    ensures t.Shape() && Counts(t.index[..], ot.usedCount, 0)
    ensures Linked(t.hash[..], t.index[..], hk, home)
  {
    home := seq(|hk|, _ => 0);
    ghost var oix := ot.index[..];
    InUseCounts(oix);
    AllEmpty(t.index[..]);
    for c := 0 to ot.slotCount
      invariant t.Shape() && Counts(t.index[..], InUse(oix[..c]), 0)
      invariant LinkedUpTo(t.hash[..], t.index[..], hk, home, oldHome, c)
    {
      home := CopySlot(t, ot, c, hk, oldHome, home);
    }
    LinkedAtEnd(t.hash[..], t.index[..], hk, home, ot.hash[..], oix, oldHome);
    assert oix[..ot.slotCount] == oix;
  }

  method CopySlot(t: HashIndex, ot: HashIndex, c: nat, ghost hk: seq<nat>, ghost oldHome: seq<nat>,
                  ghost home: seq<nat>)
    returns (ghost home': seq<nat>)
    requires ot.Valid() && Linked(ot.hash[..], ot.index[..], hk, oldHome)
    requires t != ot && {t.hash as object, t.index} !! {ot.hash as object, ot.index}
    requires c < ot.slotCount && InUse(ot.index[..]) < t.slotCount
    requires t.Shape() && Counts(t.index[..], InUse(ot.index[..][..c]), 0)
    requires LinkedUpTo(t.hash[..], t.index[..], hk, home, oldHome, c)
    modifies t.hash, t.index, t`rank
    ensures t.Shape() && Counts(t.index[..], InUse(ot.index[..][..c + 1]), 0)
    ensures LinkedUpTo(t.hash[..], t.index[..], hk, home', oldHome, c + 1)
  {
    ghost var hs, ix, ohs, oix := t.hash[..], t.index[..], ot.hash[..], ot.index[..];
    InUseStep(oix, c);
    InUseGrows(oix, c);
    home' := home;
    if ot.index[c] >= 0 {
      var s := t.Insert(ot.hash[c], ot.index[c], InUse(oix[..c]));
      LinkOneMore(hs, ix, hk, home, ohs, oix, oldHome, c, s);
      home' := home[oix[c] := s];
    } else {
      LinkNoMore(hs, ix, hk, home, ohs, oix, oldHome, c);
    }
  }

  lemma {:induction false} AllEmpty(ix: seq<int>)
    requires forall s :: 0 <= s < |ix| ==> ix[s] == INDEX_EMPTY
    ensures Counts(ix, 0, 0)
  {
    if ix != [] {
      var init := ix[..|ix| - 1];
      AllEmpty(init);
      assert ix == init + [INDEX_EMPTY];
    }
  }
}
