/** The stb_ds hash map with binary keys: a dense array of entries, the hash index
    over it, and put, get and delete with growth, shrink and rebuild.  The concrete
    hash function is a parameter; it only has to be a function of key and seed. */
module HashMaps {
  import opened Basics
  import opened Probing
  import opened HashTables

  /** Outcome of looking at part of a bucket. */
  datatype Scan = Hit(slot: nat) | Vacant(slot: nat) | Onward

  ghost function ToMap<K, V>(es: seq<Entry<K, V>>): map<K, V>
    requires DistinctKeys(es)
  {
    map i | 0 <= i < |es| :: es[i].key := es[i].value
  }

  /** Slots storing h can be compared with `key`, and no other slot can hold it. */
  ghost predicate Comparable<K, V>(hs: seq<nat>, ix: seq<int>, es: seq<Entry<K, V>>, key: K, h: nat) {
    && |hs| == |ix|
    && forall s {:trigger ix[s]} {:trigger hs[s]} :: 0 <= s < |ix| ==>
         && (hs[s] == h ==> ix[s] >= 0)
         && (ix[s] >= 0 ==> ix[s] < |es| && (es[ix[s]].key == key ==> hs[s] == h))
  }

  /** None of the first k slots probed from `home` is empty or holds `key`. */
  ghost predicate Missed<K, V>(hs: seq<nat>, ix: seq<int>, es: seq<Entry<K, V>>, key: K, home: nat, k: nat)
    requires WholeBuckets(|hs|) && |hs| == |ix|
  {
    forall j: nat {:trigger ProbeSlot(home, |hs|, j)} :: j < k ==>
      var s := ProbeSlot(home, |hs|, j);
      && hs[s] != HASH_EMPTY
      && (ix[s] >= 0 ==> ix[s] < |es| && es[ix[s]].key != key)
  }

  /** The remembered tombstone is the first one among the first k slots probed, or -1 if there is none. */
  ghost predicate Remembered(ix: seq<int>, home: nat, k: nat, tombstone: int, kt: nat)
    requires WholeBuckets(|ix|)
  {
    && (tombstone == -1 ||
        (0 <= tombstone < |ix| && ix[tombstone] == INDEX_DELETED && kt < k && ProbeSlot(home, |ix|, kt) == tombstone))
    && forall j: nat {:trigger ProbeSlot(home, |ix|, j)} ::
         j < (if tombstone == -1 then k else kt) ==> ix[ProbeSlot(home, |ix|, j)] != INDEX_DELETED
  }

  /** Entries from .. to of one bucket, as the two inner loops of find and put look at them. */
  method ScanRange<K(==), V>(t: HashIndex, es: seq<Entry<K, V>>, key: K, h: nat, pos: nat, from: nat, to: nat,
                             tombstone: int, ghost home: nat, ghost r: nat, ghost k0: nat, ghost kt0: nat)
    returns (res: Scan, tomb: int, ghost k: nat, ghost kt: nat)
    requires WholeBuckets(t.slotCount) && t.hash.Length == t.index.Length == t.slotCount && h >= 2
    requires Comparable(t.hash[..], t.index[..], es, key, h)
    requires AtRound(home, t.slotCount, r, pos)
    requires if from == 0 && to < 8 then to == pos % 8 && k0 == 8 * r + 8 - to
             else from == pos % 8 && to == 8 && k0 == 8 * r
    requires Missed(t.hash[..], t.index[..], es, key, home, k0)
    requires Remembered(t.index[..], home, k0, tombstone, kt0)
    ensures res.Hit? ==> res.slot < t.slotCount && 0 <= t.index[res.slot] < |es| && es[t.index[res.slot]].key == key
    ensures res.Vacant? ==> res.slot < t.slotCount && t.hash[res.slot] == HASH_EMPTY
    ensures res.Vacant? ==> ProbeSlot(home, t.slotCount, k) == res.slot
    ensures res.Onward? ==> k == k0 + to - from
    ensures !res.Hit? ==> Missed(t.hash[..], t.index[..], es, key, home, k)
    ensures !res.Hit? ==> Remembered(t.index[..], home, k, tomb, kt)
  {
    ghost var hs, ix := t.hash[..], t.index[..];
    tomb, k, kt := tombstone, k0, kt0;
    var bucket, z := pos - pos % 8, from;
    while z < to
      invariant from <= z <= to && k == k0 + z - from
      invariant Missed(hs, ix, es, key, home, k) && Remembered(ix, home, k, tomb, kt)
    {
      var s := bucket + z;
      ProbeOfEntry(home, |hs|, r, pos, z);
      assert hs[s] == t.hash[s] && ix[s] == t.index[s];
      if t.hash[s] == h {
        if es[t.index[s]].key == key {
          res := Hit(s);
          return;
        }
      } else if t.hash[s] == HASH_EMPTY {
        res := Vacant(s);
        return;
      } else if tomb < 0 {
        if t.index[s] == INDEX_DELETED {
          tomb, kt := s, k;
        }
      }
      MissOneMore(hs, ix, es, key, home, k, s);
      z, k := z + 1, k + 1;
    }
    res := Onward;
  }

  /** One round of a probe: the bucket of pos, from pos to its end, then from its start. */
  method ScanBucket<K(==), V>(t: HashIndex, es: seq<Entry<K, V>>, key: K, h: nat, pos: nat, tombstone: int,
                              ghost home: nat, ghost r: nat, ghost kt0: nat)
    returns (res: Scan, tomb: int, ghost k: nat, ghost kt: nat)
    requires WholeBuckets(t.slotCount) && t.hash.Length == t.index.Length == t.slotCount && h >= 2
    requires Comparable(t.hash[..], t.index[..], es, key, h)
    requires AtRound(home, t.slotCount, r, pos)
    requires Missed(t.hash[..], t.index[..], es, key, home, 8 * r)
    requires Remembered(t.index[..], home, 8 * r, tombstone, kt0)
    ensures res.Hit? ==> res.slot < t.slotCount && 0 <= t.index[res.slot] < |es| && es[t.index[res.slot]].key == key
    ensures res.Vacant? ==> res.slot < t.slotCount && t.hash[res.slot] == HASH_EMPTY
    ensures res.Vacant? ==> ProbeSlot(home, t.slotCount, k) == res.slot
    ensures res.Onward? ==> k == 8 * (r + 1)
    ensures !res.Hit? ==> Missed(t.hash[..], t.index[..], es, key, home, k)
    ensures !res.Hit? ==> Remembered(t.index[..], home, k, tomb, kt)
  {
    var limit := pos % 8;
    res, tomb, k, kt := ScanRange(t, es, key, h, pos, limit, 8, tombstone, home, r, 8 * r, kt0);
    if res.Onward? {
      res, tomb, k, kt := ScanRange(t, es, key, h, pos, 0, limit, tomb, home, r, 8 * r + 8 - limit, kt);
    }
  }

  /** The probe loop shared by find and put: it stops at the key or at the first empty slot. */
  method Probe<K(==), V>(t: HashIndex, es: seq<Entry<K, V>>, key: K, h: nat, ghost empty: nat)
    returns (res: Scan, tomb: int, ghost k: nat, ghost kt: nat)
    requires WholeBuckets(t.slotCount) && t.hash.Length == t.index.Length == t.slotCount && h >= 2
    requires Comparable(t.hash[..], t.index[..], es, key, h)
    requires empty < t.slotCount && t.hash[ProbeSlot(h % t.slotCount, t.slotCount, empty)] == HASH_EMPTY
    ensures res.Hit? ==> res.slot < t.slotCount && 0 <= t.index[res.slot] < |es| && es[t.index[res.slot]].key == key
    ensures !res.Onward?
    ensures res.Vacant? ==>
              && res.slot < t.slotCount && t.hash[res.slot] == HASH_EMPTY
              && k < t.slotCount && ProbeSlot(h % t.slotCount, t.slotCount, k) == res.slot
              && Missed(t.hash[..], t.index[..], es, key, h % t.slotCount, k)
              && Remembered(t.index[..], h % t.slotCount, k, tomb, kt)
  {
    ghost var n, hs, home, r := t.slotCount, t.hash[..], h % t.slotCount, 0;
    var pos: nat, step: nat := h % t.slotCount, 8;
    tomb, kt := -1, 0;
    FirstRound(pos, n);
    while true
      invariant AtRound(home, n, r, pos) && step == 8 * (r + 1)
      invariant Missed(hs, t.index[..], es, key, home, 8 * r) && Remembered(t.index[..], home, 8 * r, tomb, kt)
      decreases n - 8 * r
    {
      res, tomb, k, kt := ScanBucket(t, es, key, h, pos, tomb, home, r, kt);
      if res.Hit? {
        return;
      }
      MissesStopAtEmpty(hs, t.index[..], es, key, home, k, empty);
      if res.Vacant? {
        return;
      }
      NextRound(home, n, r, pos, step);
      pos, step, r := (pos + step) % t.slotCount, step + 8, r + 1;
    }
  }

  lemma MissOneMore<K, V>(hs: seq<nat>, ix: seq<int>, es: seq<Entry<K, V>>, key: K, home: nat, k: nat, s: nat)
    requires WholeBuckets(|hs|) && |hs| == |ix| && Missed(hs, ix, es, key, home, k)
    requires ProbeSlot(home, |hs|, k) == s && hs[s] != HASH_EMPTY
    requires ix[s] >= 0 ==> ix[s] < |es| && es[ix[s]].key != key
    ensures Missed(hs, ix, es, key, home, k + 1)
  {
  }

  lemma MissesStopAtEmpty<K, V>(hs: seq<nat>, ix: seq<int>, es: seq<Entry<K, V>>, key: K, home: nat, k: nat, e: nat)
    requires WholeBuckets(|hs|) && |hs| == |ix| && Missed(hs, ix, es, key, home, k)
    requires hs[ProbeSlot(home, |hs|, e)] == HASH_EMPTY
    ensures k <= e
  {
  }

  lemma MissedMeansClear<K, V>(hs: seq<nat>, ix: seq<int>, es: seq<Entry<K, V>>, key: K, home: nat, k: nat, k': nat)
    requires WholeBuckets(|hs|) && |hs| == |ix| && Missed(hs, ix, es, key, home, k) && k' <= k
    ensures ClearPath(hs, home, k')
  {
  }

  /** The key is nowhere in the table once a probe for it has met an empty slot. */
  lemma AbsentAtEmpty<K, V>(hs: seq<nat>, ix: seq<int>, rank: seq<nat>, es: seq<Entry<K, V>>, key: K, h: nat, k: nat)
    requires TableOk(hs, ix, rank) && Comparable(hs, ix, es, key, h)
    requires Missed(hs, ix, es, key, h % |hs|, k)
    requires hs[ProbeSlot(h % |hs|, |hs|, k)] == HASH_EMPTY
    ensures forall s :: 0 <= s < |ix| && ix[s] >= 0 ==> es[ix[s]].key != key
  {
    forall s | 0 <= s < |ix| && ix[s] >= 0
      ensures es[ix[s]].key != key
    {
      if es[ix[s]].key == key {
        SearchIsComplete(hs, ix, rank, h, k, s);
      }
    }
  }

  /** stbds_hm_find_slot: the slot in use that holds the key, or -1. */
  method FindSlot<K(==), V>(t: HashIndex, es: seq<Entry<K, V>>, key: K, h: nat) returns (slot: int)
    requires t.Valid() && t.usedCount + t.tombstoneCount < t.slotCount && h >= 2
    requires Comparable(t.hash[..], t.index[..], es, key, h)
    ensures -1 <= slot < t.slotCount
    ensures slot >= 0 ==> 0 <= t.index[slot] < |es| && es[t.index[slot]].key == key
    ensures slot == -1 ==> forall s :: 0 <= s < t.slotCount && t.index[s] >= 0 ==> es[t.index[s]].key != key
  {
    ghost var hs, ix := t.hash[..], t.index[..];
    ghost var empty := EmptySlotAhead(hs, ix, t.rank, t.usedCount, t.tombstoneCount, h);
    ghost var k, kt;
    var res, tomb;
    res, tomb, k, kt := Probe(t, es, key, h, empty);
    if res.Hit? {
      return res.slot;
    }
    AbsentAtEmpty(hs, ix, t.rank, es, key, h, k);
    return -1;
  }

  lemma ComparableWhenLinked<K, V>(hs: seq<nat>, ix: seq<int>, es: seq<Entry<K, V>>, hk: seq<nat>, home: seq<nat>,
                                   key: K, h: nat)
    requires SlotStates(hs, ix) && Linked(hs, ix, hk, home) && |hk| == |es| && h >= 2
    requires forall i :: 0 <= i < |es| && es[i].key == key ==> hk[i] == h
    ensures Comparable(hs, ix, es, key, h)
  {
    LinkedRefers(hs, ix, hk, home);
  }

  // ----- what appending and swap-deleting an entry keep

  lemma LinkAppended(hs: seq<nat>, ix: seq<int>, hk: seq<nat>, home: seq<nat>, t: nat, h: nat)
    requires Linked(hs, ix, hk, home) && t < |ix| && ix[t] < 0
    ensures Linked(hs[t := h], ix[t := |hk|], hk + [h], home + [t])
  {
  }

  /** Slot contents after deleting entry i and moving the last entry into its place. */
  function Repointed(ix: seq<int>, home: seq<nat>, i: nat): (r: seq<int>)
    requires i < |home| && forall j :: 0 <= j < |home| ==> home[j] < |ix|
    ensures |r| == |ix|
  {
    var last := |home| - 1;
    if i == last then ix[home[i] := INDEX_DELETED] else ix[home[i] := INDEX_DELETED][home[last] := i]
  }

  function SwapDeleted<T>(s: seq<T>, i: nat): (r: seq<T>)
    requires i < |s|
    ensures |r| == |s| - 1
  {
    s[i := s[|s| - 1]][..|s| - 1]
  }

  lemma LinkSwapDeleted(hs: seq<nat>, ix: seq<int>, hk: seq<nat>, home: seq<nat>, i: nat)
    requires Linked(hs, ix, hk, home) && i < |hk|
    ensures Linked(hs[home[i] := HASH_DELETED], Repointed(ix, home, i), SwapDeleted(hk, i), SwapDeleted(home, i))
  {
  }

  ghost predicate HasKey<K, V>(es: seq<Entry<K, V>>, k: K) {
    exists i :: 0 <= i < |es| && es[i].key == k
  }

  lemma ToMapIs<K, V>(es: seq<Entry<K, V>>, m: map<K, V>)
    requires DistinctKeys(es)
    requires forall i :: 0 <= i < |es| ==> es[i].key in m && m[es[i].key] == es[i].value
    requires forall k :: k in m ==> HasKey(es, k)
    ensures ToMap(es) == m
  {
    forall k | k in m
      ensures k in ToMap(es)
    {
      var i :| 0 <= i < |es| && es[i].key == k;
    }
  }

  /** While the last entry is being moved into a gap, its key can still be searched for. */
  lemma MovedComparable<K, V>(hs': seq<nat>, ix': seq<int>, hs: seq<nat>, ix: seq<int>, es: seq<Entry<K, V>>,
                              hk: seq<nat>, home: seq<nat>, gap: nat, key: K, h: nat)
    requires SlotStates(hs, ix) && Linked(hs, ix, hk, home) && |hk| == |es| && gap < |es| - 1 && h >= 2
    requires hs' == hs[home[gap] := HASH_DELETED] && ix' == ix[home[gap] := INDEX_DELETED]
    requires DistinctKeys(es) && es[|es| - 1].key == key && hk[|es| - 1] == h
    ensures Comparable(hs', ix', es[gap := es[|es| - 1]], key, h)
    ensures var es' := es[gap := es[|es| - 1]];
            && ix'[home[|es| - 1]] == |es| - 1
            && forall s :: 0 <= s < |ix'| && ix'[s] >= 0 && es'[ix'[s]].key == key ==> s == home[|es| - 1]
  {
    LinkedRefers(hs, ix, hk, home);
    assert home[gap] != home[|es| - 1];
  }

  lemma MapAppended<K, V>(es: seq<Entry<K, V>>, k: K, v: V)
    requires DistinctKeys(es) && !HasKey(es, k)
    ensures DistinctKeys(es + [Entry(k, v)]) && ToMap(es + [Entry(k, v)]) == ToMap(es)[k := v]
  {
    var es' := es + [Entry(k, v)];
    forall x | x in ToMap(es)[k := v]
      ensures HasKey(es', x)
    {
      assert es'[|es|].key == k;
      if x != k {
        var i :| 0 <= i < |es| && es[i].key == x;
        assert es'[i].key == x;
      }
    }
    ToMapIs(es', ToMap(es)[k := v]);
  }

  lemma MapUpdated<K, V>(es: seq<Entry<K, V>>, i: nat, k: K, v: V)
    requires DistinctKeys(es) && i < |es| && es[i].key == k
    ensures DistinctKeys(es[i := Entry(k, v)]) && ToMap(es[i := Entry(k, v)]) == ToMap(es)[k := v]
  {
    var es' := es[i := Entry(k, v)];
    assert forall j :: 0 <= j < |es| ==> es'[j].key == es[j].key;
    forall x | x in ToMap(es)[k := v]
      ensures HasKey(es', x)
    {
      var j :| 0 <= j < |es| && es[j].key == x;
      assert es'[j].key == x;
    }
    ToMapIs(es', ToMap(es)[k := v]);
  }

  lemma MapPut<K, V>(before: seq<Entry<K, V>>, after: seq<Entry<K, V>>, i: nat, k: K, v: V)
    requires DistinctKeys(before) && i < |after| && after[i].key == k
    requires if HasKey(before, k) then after == before else i == |before| && after == before + [after[i]]
    ensures DistinctKeys(after[i := Entry(k, v)]) && ToMap(after[i := Entry(k, v)]) == ToMap(before)[k := v]
  {
    if HasKey(before, k) {
      MapUpdated(before, i, k, v);
    } else {
      MapAppended(before, k, v);
      assert after[i := Entry(k, v)] == before + [Entry(k, v)];
    }
  }

  lemma MapSwapDeleted<K, V>(es: seq<Entry<K, V>>, i: nat)
    requires DistinctKeys(es) && i < |es|
    ensures DistinctKeys(SwapDeleted(es, i)) && ToMap(SwapDeleted(es, i)) == ToMap(es) - {es[i].key}
  {
    var es', last := SwapDeleted(es, i), |es| - 1;
    SwapDeletedKeys(es, i);
    var m := ToMap(es);
    forall k | k in m && k != es[i].key
      ensures HasKey(es', k)
    {
      var j :| 0 <= j < |es| && es[j].key == k;
      assert es'[if j == last then i else j].key == k;
    }
    ToMapIs(es', m - {es[i].key});
  }

  lemma SwapDeletedKeys<K, V>(es: seq<Entry<K, V>>, i: nat)
    requires DistinctKeys(es) && i < |es|
    ensures var es' := SwapDeleted(es, i);
            && DistinctKeys(es')
            && forall j :: 0 <= j < |es'| ==>
                 es'[j].key != es[i].key && es'[j].key in ToMap(es) && ToMap(es)[es'[j].key] == es'[j].value
  {
    var last := |es| - 1;
    assert forall j :: 0 <= j < last ==> SwapDeleted(es, i)[j] == if j == i then es[last] else es[j];
  }

  class HashMap<K(==), V(0)> {
    const hashBytes: (K, nat) -> nat
    const firstSeed: nat
    var created: bool
    var capacity: nat
    var defaultValue: V
    var entries: seq<Entry<K, V>>
    var table: HashIndex?
    ghost var home: seq<nat>

    ghost function Repr(): set<object>
      reads this
    {
      {this} + if table == null then {} else {table, table.hash, table.index}
    }

    function KeyHash(k: K, seed: nat): (h: nat)
      ensures h >= 2
    {
      StoredHash(hashBytes(k, seed))
    }

    ghost function Hashes(es: seq<Entry<K, V>>, seed: nat): (hk: seq<nat>)
      ensures |hk| == |es| && forall i :: 0 <= i < |es| ==> hk[i] == KeyHash(es[i].key, seed)
    {
      seq(|es|, i requires 0 <= i < |es| => KeyHash(es[i].key, seed))
    }

    /** The index `t` describes exactly the entries `es`, `home` giving their slots. */
    ghost predicate Indexed(t: HashIndex, es: seq<Entry<K, V>>, home: seq<nat>)
      reads t, t.hash, t.index
    {
      && t.Valid() && t.usedCount == |es|
      && Linked(t.hash[..], t.index[..], Hashes(es, t.seed), home)
    }

    ghost predicate Valid()
      reads this, Repr()
    {
      && DistinctKeys(entries)
      && (if created then |entries| + 1 <= capacity else table == null)
      && (table == null ==> entries == [])
      && (table != null ==> Indexed(table, entries, home) && table.WithinThresholds())
    }

    ghost function View(): map<K, V>
      reads this
      requires DistinctKeys(entries)
    {
      ToMap(entries)
    }

    constructor (hashBytes: (K, nat) -> nat, seed: nat, zero: V)
      ensures Valid() && View() == map[] && defaultValue == zero
      ensures fresh(Repr())
    {
      this.hashBytes := hashBytes;
      firstSeed := seed;
      created, capacity, defaultValue, entries, table, home := false, 0, zero, [], null, [];
    }

    /** Position of the key in the dense array, or -1. */
    method GetIndex(key: K) returns (i: int)
      requires Valid()
      modifies this`created, this`capacity
      ensures Valid() && created
      ensures i == -1 || 0 <= i < |entries|
      ensures i == -1 <==> key !in View()
      ensures i >= 0 ==> entries[i].key == key && entries[i].value == View()[key]
    {
      i := -1;
      if !created {
        created, capacity := true, 4;
      } else if table != null {
        var slot := Locate(key);
        if slot >= 0 {
          i := table.index[slot];
        }
      }
    }

    /** The slot of the key, or -1 if no entry has it. */
    method Locate(key: K) returns (slot: int)
      requires Valid() && table != null
      ensures -1 <= slot < table.slotCount && (slot == -1 <==> !HasKey(entries, key))
      ensures slot >= 0 ==> 0 <= table.index[slot] < |entries| && entries[table.index[slot]].key == key
    {
      ReadyToProbe(table, entries, home, key);
      slot := FindSlot(table, entries, key, KeyHash(key, table.seed));
      if slot == -1 {
        AbsentFromEntries(table, entries, home, key);
      }
    }

    lemma ReadyToProbe(t: HashIndex, es: seq<Entry<K, V>>, home: seq<nat>, key: K)
      requires Indexed(t, es, home) && t.WithinThresholds()
      ensures t.usedCount + t.tombstoneCount < t.slotCount
      ensures Comparable(t.hash[..], t.index[..], es, key, KeyHash(key, t.seed))
    {
      ThresholdsLeaveRoom(t.slotCount);
      ComparableWhenLinked(t.hash[..], t.index[..], es, Hashes(es, t.seed), home, key, KeyHash(key, t.seed));
    }

    lemma AbsentFromEntries(t: HashIndex, es: seq<Entry<K, V>>, home: seq<nat>, key: K)
      requires Indexed(t, es, home)
      requires forall s :: 0 <= s < t.slotCount && t.index[s] >= 0 ==> es[t.index[s]].key != key
      ensures !HasKey(es, key)
    {
      forall i | 0 <= i < |es|
        ensures es[i].key != key
      {
        assert t.index[home[i]] == i;
      }
    }

    /** stbds_hmget: the value of the key, or the default value. */
    method Get(key: K) returns (v: V)
      requires Valid()
      modifies this`created, this`capacity
      ensures Valid() && v == if key in View() then View()[key] else defaultValue
    {
      var i := GetIndex(key);
      v := if i == -1 then defaultValue else entries[i].value;
    }

    /** Create the index, or double it when it has reached its load threshold. */
    method EnsureTable()
      requires Valid() && created
      modifies Repr()
      ensures Valid() && entries == old(entries) && defaultValue == old(defaultValue) && created
      ensures capacity == old(capacity)
      ensures table != null && table.usedCount < table.usedThreshold
      ensures fresh(Repr() - old(Repr()))
    {
      if table == null {
        assert 8 == 8 * Pow2(0);
        table := new HashIndex(8, firstSeed);
        home := [];
        NothingIndexed(table);
      } else if table.usedCount >= table.usedThreshold {
        DoubledSlotCount(table.slotCount);
        Resize(table.slotCount * 2);
      }
    }

    /** Replace the index by one of n slots over the same entries. */
    method Resize(n: nat)
      requires DistinctKeys(entries) && created && |entries| + 1 <= capacity
      requires table != null && Indexed(table, entries, home)
      requires IsSlotCount(n) && table.usedCount <= n - n / 4 && table.usedCount < n
      requires n > 8 ==> n / 4 <= table.usedCount
      modifies this`table, this`home
      ensures Valid() && table != null && fresh(table) && fresh(table.hash) && fresh(table.index)
      ensures table.slotCount == n
    {
      table, home := Rebuild(n, table, Hashes(entries, table.seed), home);
    }

    lemma NothingIndexed(t: HashIndex)
      requires t.Valid() && t.usedCount == 0 && forall s :: 0 <= s < t.slotCount ==> t.index[s] == INDEX_EMPTY
      ensures Indexed(t, [], [])
    {
    }

    /** stbds_hmput_key: find the key or append an entry for it.  The value of a new entry is whatever
        the memory held; the put macros overwrite it. */
    method PutKey(key: K) returns (temp: nat)
      requires Valid()
      modifies Repr()
      ensures Valid() && defaultValue == old(defaultValue) && fresh(Repr() - old(Repr()))
      ensures temp < |entries| && entries[temp].key == key
      ensures HasKey(old(entries), key) ==> entries == old(entries)
      ensures !HasKey(old(entries), key) ==> temp == |old(entries)| && entries == old(entries) + [entries[temp]]
    {
      if !created {
        created, capacity := true, 4;
      }
      EnsureTable();
      var h := KeyHash(key, table.seed);
      var hit, at;
      ghost var k;
      hit, at, k := LocateForPut(key, h);
      if hit {
        return at;
      }
      temp := |entries|;
      Append(key, h, at, k);
    }

    /** Either the position of the key's entry, or the slot that a new entry goes to: the first slot on
        its probe path that is not in use, be it a tombstone or the empty slot that ended the probe. */
    method LocateForPut(key: K, h: nat) returns (hit: bool, at: nat, ghost k: nat)
      requires Valid() && table != null && h == KeyHash(key, table.seed)
      ensures hit ==> at < |entries| && entries[at].key == key
      ensures !hit ==> !HasKey(entries, key) && at < table.slotCount && table.index[at] < 0
      ensures !hit ==> k < table.slotCount && ProbeSlot(h % table.slotCount, table.slotCount, k) == at
      ensures !hit ==> ClearPath(table.hash[..], h % table.slotCount, k)
      ensures !hit ==> forall j: nat :: j < k ==> table.index[ProbeSlot(h % table.slotCount, table.slotCount, j)] >= 0
    {
      ReadyToProbe(table, entries, home, key);
      ghost var hs, ix := table.hash[..], table.index[..];
      ghost var empty := EmptySlotAhead(hs, ix, table.rank, table.usedCount, table.tombstoneCount, h);
      ghost var kt;
      var res, tomb;
      res, tomb, k, kt := Probe(table, entries, key, h, empty);
      if res.Hit? {
        return true, table.index[res.slot], k;
      }
      AbsentAtEmpty(hs, ix, table.rank, entries, key, h, k);
      AbsentFromEntries(table, entries, home, key);
      MissedMeansClear(hs, ix, entries, key, h % table.slotCount, k, k);
      if tomb >= 0 {
        return false, tomb, kt;
      }
      return false, res.slot, k;
    }

    method Append(key: K, h: nat, pos: nat, ghost k: nat)
      requires Valid() && created && table != null && h == KeyHash(key, table.seed) && !HasKey(entries, key)
      requires table.usedCount < table.usedThreshold
      requires pos < table.slotCount && table.index[pos] < 0
      requires k < table.slotCount && ProbeSlot(h % table.slotCount, table.slotCount, k) == pos
      requires ClearPath(table.hash[..], h % table.slotCount, k)
      modifies Repr()
      ensures Valid() && defaultValue == old(defaultValue) && table == old(table)
      ensures |entries| == |old(entries)| + 1 && entries[|old(entries)|].key == key
      ensures entries == old(entries) + [entries[|old(entries)|]]
    {
      var i := |entries|;
      ghost var hk := Hashes(entries, table.seed);
      LinkAppended(table.hash[..], table.index[..], hk, home, pos, h);
      table.Take(pos, k, h, i);
      var junk: V := *;
      MapAppended(entries, key, junk);
      capacity := GrownCapacity(capacity, i + 2);
      entries := entries + [Entry(key, junk)];
      home := home + [pos];
      assert Hashes(entries, table.seed) == hk + [h];
    }

    /** The put macro: after it the key maps to the value and no other key has changed. */
    method Put(key: K, value: V)
      requires Valid()
      modifies Repr()
      ensures Valid() && fresh(Repr() - old(Repr()))
      ensures View() == old(View())[key := value] && defaultValue == old(defaultValue)
    {
      ghost var before := entries;
      var temp := PutKey(key);
      MapPut(before, entries, temp, key, value);
      assert Hashes(entries[temp := Entry(key, value)], table.seed) == Hashes(entries, table.seed);
      entries := entries[temp := Entry(key, value)];
    }

    /** stbds_hmdel_key: swap-delete the entry of the key, then shrink or rebuild the index if it is due. */
    method Delete(key: K) returns (removed: bool)
      requires Valid()
      modifies Repr()
      ensures Valid() && fresh(Repr() - old(Repr()))
      ensures removed == (key in old(View()))
      ensures View() == old(View()) - {key} && defaultValue == old(defaultValue)
    {
      if table == null {
        return false;
      }
      var slot := Locate(key);
      if slot < 0 {
        return false;
      }
      Evict(slot);
      removed := true;
    }

    method Evict(slot: nat)
      requires Valid() && table != null && slot < table.slotCount && 0 <= table.index[slot] < |entries|
      modifies Repr()
      ensures Valid() && fresh(Repr() - old(Repr())) && defaultValue == old(defaultValue)
      ensures View() == old(View()) - {old(entries[table.index[slot]].key)}
    {
      MapSwapDeleted(entries, table.index[slot]);
      RemoveAt(slot);
      Compact();
    }

    /** Bury the slot, move the last entry into the gap and repoint the slot of the moved entry. */
    method RemoveAt(slot: nat)
      requires Valid() && table != null && slot < table.slotCount && 0 <= table.index[slot] < |entries|
      modifies this`entries, this`home, table, table.hash, table.index
      ensures entries == SwapDeleted(old(entries), old(table.index[slot]))
      ensures Indexed(table, entries, home)
      ensures table.tombstoneCount == old(table.tombstoneCount) + 1
    {
      var gap := table.index[slot];
      ghost var hs, ix, hk, es := table.hash[..], table.index[..], Hashes(entries, table.seed), entries;
      assert home[gap] == slot;
      LinkSwapDeleted(hs, ix, hk, home, gap);
      HashesSwapDeleted(es, gap, table.seed);
      ThresholdsLeaveRoom(table.slotCount);
      table.Bury(slot);
      FillGap(gap, es, hs, ix);
      home := SwapDeleted(home, gap);
    }

    method FillGap(gap: nat, ghost es: seq<Entry<K, V>>, ghost hs: seq<nat>, ghost ix: seq<int>)
      requires table != null && gap < |entries| && entries == es && DistinctKeys(es)
      requires SlotStates(hs, ix) && Linked(hs, ix, Hashes(es, table.seed), home)
      requires table.Valid() && table.usedCount + table.tombstoneCount < table.slotCount
      requires table.hash[..] == hs[home[gap] := HASH_DELETED] && table.index[..] == ix[home[gap] := INDEX_DELETED]
      modifies this`entries, table.index
      ensures table.Valid() && table.hash[..] == old(table.hash[..])
      ensures table.index[..] == Repointed(ix, home, gap) && entries == SwapDeleted(es, gap)
    {
      var last := |entries| - 1;
      if gap != last {
        MoveLast(gap, es, hs, ix);
      }
      entries := entries[..last];
    }

    /** The last entry is copied to the gap, and its slot is made to point there. */
    method MoveLast(gap: nat, ghost es: seq<Entry<K, V>>, ghost hs: seq<nat>, ghost ix: seq<int>)
      requires table != null && gap < |entries| - 1 && entries == es && DistinctKeys(es)
      requires SlotStates(hs, ix) && Linked(hs, ix, Hashes(es, table.seed), home)
      requires table.Valid() && table.usedCount + table.tombstoneCount < table.slotCount
      requires table.hash[..] == hs[home[gap] := HASH_DELETED] && table.index[..] == ix[home[gap] := INDEX_DELETED]
      modifies this`entries, table.index
      ensures table.Valid() && table.hash[..] == old(table.hash[..])
      ensures table.index[..] == Repointed(ix, home, gap) && entries == es[gap := es[|es| - 1]]
    {
      entries := entries[gap := entries[|entries| - 1]];
      var moved := FindMoved(gap, es, hs, ix);
      table.Redirect(moved, gap);
    }

    /** Search for the entry that now sits both in the gap and at the end: its slot is found. */
    method FindMoved(gap: nat, ghost es: seq<Entry<K, V>>, ghost hs: seq<nat>, ghost ix: seq<int>) returns (moved: int)
      requires table != null && gap < |es| - 1 && entries == es[gap := es[|es| - 1]] && DistinctKeys(es)
      requires SlotStates(hs, ix) && Linked(hs, ix, Hashes(es, table.seed), home)
      requires table.Valid() && table.usedCount + table.tombstoneCount < table.slotCount
      requires table.hash[..] == hs[home[gap] := HASH_DELETED] && table.index[..] == ix[home[gap] := INDEX_DELETED]
      ensures moved == home[|es| - 1] && table.index[moved] == |es| - 1
    {
      var key := entries[gap].key;
      var h := KeyHash(key, table.seed);
      MovedComparable(table.hash[..], table.index[..], hs, ix, es, Hashes(es, table.seed), home, gap, key, h);
      moved := FindSlot(table, entries, key, h);
    }

    lemma HashesSwapDeleted(es: seq<Entry<K, V>>, i: nat, seed: nat)
      requires i < |es|
      ensures Hashes(SwapDeleted(es, i), seed) == SwapDeleted(Hashes(es, seed), i)
    {
    }

    /** Halve a sparse index, or rebuild one with too many tombstones. */
    method Compact()
      requires DistinctKeys(entries) && created && |entries| + 1 <= capacity
      requires table != null && Indexed(table, entries, home)
      requires table.shrinkThreshold - 1 <= table.usedCount <= table.usedThreshold
      modifies Repr()
      ensures Valid() && entries == old(entries) && defaultValue == old(defaultValue) && fresh(Repr() - old(Repr()))
    {
      if table.usedCount < table.shrinkThreshold && table.slotCount > 8 {
        HalvedSlotCount(table.slotCount);
        Resize(table.slotCount / 2);
      } else if table.tombstoneCount > table.tombstoneThreshold {
        SlotCountFacts(table.slotCount);
        Resize(table.slotCount);
      }
    }
  }

  /** Capacity of the dense array after asking for room for `need` elements. */
  function GrownCapacity(capacity: nat, need: nat): (c: nat)
    ensures c >= need && c >= capacity
    ensures c == capacity || c >= 2 * capacity
  {
    if need <= capacity then capacity
    else if need < 2 * capacity then 2 * capacity
    else if need < 4 then 4
    else need
  }

  lemma DoubledSlotCount(n: nat)
    requires IsSlotCount(n)
    ensures IsSlotCount(n * 2)
  {
    var m: nat :| n == 8 * Pow2(m);
    assert n * 2 == 8 * Pow2(m + 1);
  }

  lemma HalvedSlotCount(n: nat)
    requires IsSlotCount(n) && n > 8
    ensures IsSlotCount(n / 2)
  {
    var m: nat :| n == 8 * Pow2(m);
    assert m > 0 && n / 2 == 8 * Pow2(m - 1);
  }

  // ----- whole runs

  datatype Op<K, V> = PutOp(key: K, value: V) | GetOp(key: K) | DeleteOp(key: K)

  datatype Reply<V> = Stored | Got(value: V) | Deleted(found: bool)

  /** What an operation does to a plain map. */
  function Apply<K, V>(m: map<K, V>, op: Op<K, V>): map<K, V> {
    match op
    case PutOp(k, v) => m[k := v]
    case GetOp(_) => m
    case DeleteOp(k) => m - {k}
  }

  /** What an operation on a plain map with a default value answers. */
  function Answer<K, V>(m: map<K, V>, default: V, op: Op<K, V>): Reply<V> {
    match op
    case PutOp(_, _) => Stored
    case GetOp(k) => Got(if k in m then m[k] else default)
    case DeleteOp(k) => Deleted(k in m)
  }

  /** The answers of a plain map to a whole run. */
  function Answers<K(==), V>(m: map<K, V>, default: V, ops: seq<Op<K, V>>): seq<Reply<V>>
    decreases |ops|
  {
    if ops == [] then [] else [Answer(m, default, ops[0])] + Answers(Apply(m, ops[0]), default, ops[1..])
  }

  method Execute<K(==), V(0)>(m: HashMap<K, V>, op: Op<K, V>) returns (reply: Reply<V>)
    requires m.Valid()
    modifies m.Repr()
    ensures m.Valid() && fresh(m.Repr() - old(m.Repr())) && m.defaultValue == old(m.defaultValue)
    ensures m.View() == Apply(old(m.View()), op) && reply == Answer(old(m.View()), m.defaultValue, op)
  {
    match op
    case PutOp(k, v) =>
      m.Put(k, v);
      reply := Stored;
    case GetOp(k) =>
      var v := m.Get(k);
      reply := Got(v);
    case DeleteOp(k) =>
      var found := m.Delete(k);
      reply := Deleted(found);
  }

  method RunOn<K(==), V(0)>(m: HashMap<K, V>, ops: seq<Op<K, V>>) returns (replies: seq<Reply<V>>)
    requires m.Valid()
    modifies m.Repr()
    ensures replies == Answers(old(m.View()), old(m.defaultValue), ops)
    decreases |ops|
  {
    if ops == [] {
      return [];
    }
    var reply := Execute(m, ops[0]);
    var rest := RunOn(m, ops[1..]);
    return [reply] + rest;
  }

  /** Any run on an initially absent table answers exactly like a plain map. */
  method Run<K(==), V(0)>(hashBytes: (K, nat) -> nat, seed: nat, zero: V, ops: seq<Op<K, V>>)
    returns (replies: seq<Reply<V>>)
    ensures replies == Answers(map[], zero, ops)
  {
    var m := new HashMap(hashBytes, seed, zero);
    replies := RunOn(m, ops);
  }
}
