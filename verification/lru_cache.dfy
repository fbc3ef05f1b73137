/** LRUCache: a list of nodes, most recently used first, and a hash map from keys to nodes of that list. */
module LruCaches {
  import opened Basics

  // The specification: what an operation does to the list of entries

  /** The list without the entry of a key. */
  function Drop<K(==), V>(s: seq<Entry<K, V>>, k: K): seq<Entry<K, V>> {
    if s == [] then [] else (if s[0].key == k then [] else [s[0]]) + Drop(s[1..], k)
  }

  function ValueOf<K(==), V>(s: seq<Entry<K, V>>, k: K): Option<V> {
    if s == [] then None else if s[0].key == k then Some(s[0].value) else ValueOf(s[1..], k)
  }

  function Used<K(==), V>(s: seq<Entry<K, V>>, k: K): seq<Entry<K, V>> {
    if ValueOf(s, k).Some? then [Entry(k, ValueOf(s, k).value)] + Drop(s, k) else s
  }

  /** What is left after the least recently used entry has gone, if the list is full. */
  function Spared<K, V>(s: seq<Entry<K, V>>, capacity: nat): seq<Entry<K, V>> {
    if |s| >= capacity && |s| > 0 then s[..|s| - 1] else s
  }

  function Stored<K(==), V>(s: seq<Entry<K, V>>, k: K, v: V, capacity: nat): seq<Entry<K, V>> {
    [Entry(k, v)] + (if ValueOf(s, k).Some? then Drop(s, k) else Spared(s, capacity))
  }

  lemma {:induction false} FindKey<K, V>(s: seq<Entry<K, V>>, i: nat)
    requires i < |s| && DistinctKeys(s)
    ensures Drop(s, s[i].key) == s[..i] + s[i + 1..] && ValueOf(s, s[i].key) == Some(s[i].value)
  {
    if i == 0 {
      DropNothing(s[1..], s[0].key);
      assert s[..0] + s[1..] == s[1..];
    } else {
      FindKey(s[1..], i - 1);
      assert s[..i] + s[i + 1..] == [s[0]] + (s[1..][..i - 1] + s[1..][i..]);
    }
  }

  lemma {:induction false} DropNothing<K, V>(s: seq<Entry<K, V>>, k: K)
    requires forall i :: 0 <= i < |s| ==> s[i].key != k
    ensures Drop(s, k) == s && ValueOf(s, k) == None
  {
    if s != [] {
      DropNothing(s[1..], k);
    }
  }

  // The implementation

  class Node<K, V> {
    const key: K
    var value: V

    constructor (key: K, value: V)
      ensures this.key == key && this.value == value
    {
      this.key, this.value := key, value;
    }
  }

  /** The list and the hash map name the same nodes, each under its key. */
  ghost predicate Linked<K, V>(nodes: seq<Node<K, V>>, index: map<K, Node<K, V>>) {
    && (forall i {:trigger nodes[i]} :: 0 <= i < |nodes| ==> nodes[i].key in index && index[nodes[i].key] == nodes[i])
    && (forall i, j :: 0 <= i < j < |nodes| ==> nodes[i] != nodes[j])
    && (forall k :: k in index ==> index[k].key == k && index[k] in nodes)
  }

  /** The entries are what the nodes hold. */
  ghost predicate Mirrors<K, V>(entries: seq<Entry<K, V>>, nodes: seq<Node<K, V>>)
    reads nodes
  {
    && |entries| == |nodes|
    && forall i {:trigger entries[i]} :: 0 <= i < |nodes| ==> entries[i] == Entry(nodes[i].key, nodes[i].value)
  }

  /** The i-th element moved to the front. */
  function Spliced<T>(s: seq<T>, i: nat): seq<T>
    requires i < |s|
  {
    [s[i]] + (s[..i] + s[i + 1..])
  }

  lemma SplicedAt<T>(s: seq<T>, i: nat, j: nat)
    requires i < |s| && j < |s|
    ensures |Spliced(s, i)| == |s| && Spliced(s, i)[j] == s[if j == 0 then i else if j <= i then j - 1 else j]
    ensures Spliced(s, i)[if j < i then j + 1 else if j == i then 0 else j] == s[j]
  {
  }

  lemma LinkedSpliced<K, V>(nodes: seq<Node<K, V>>, index: map<K, Node<K, V>>, i: nat)
    requires Linked(nodes, index) && i < |nodes|
    ensures Linked(Spliced(nodes, i), index)
  {
    var moved := Spliced(nodes, i);
    forall j | 0 <= j < |moved|
      ensures moved[j].key in index && index[moved[j].key] == moved[j]
    {
      SplicedAt(nodes, i, j);
    }
    forall j, l | 0 <= j < l < |moved|
      ensures moved[j] != moved[l]
    {
      SplicedAt(nodes, i, j);
      SplicedAt(nodes, i, l);
    }
    forall k | k in index
      ensures index[k] in moved
    {
      var j :| 0 <= j < |nodes| && nodes[j] == index[k];
      SplicedAt(nodes, i, j);
    }
  }

  lemma MirrorsSpliced<K, V>(entries: seq<Entry<K, V>>, nodes: seq<Node<K, V>>, i: nat)
    requires Mirrors(entries, nodes) && i < |nodes|
    ensures Mirrors(Spliced(entries, i), Spliced(nodes, i))
  {
    forall j | 0 <= j < |nodes|
      ensures Spliced(entries, i)[j] == Entry(Spliced(nodes, i)[j].key, Spliced(nodes, i)[j].value)
    {
      SplicedAt(entries, i, j);
      SplicedAt(nodes, i, j);
    }
  }

  lemma SplicedMembers<T>(s: seq<T>, i: nat)
    requires i < |s|
    ensures forall x :: x in Spliced(s, i) ==> x in s
  {
  }

  lemma SplicedFirst<T>(s: seq<T>)
    ensures s != [] ==> Spliced(s, 0) == s
  {
  }

  class LruCache<K(==), V> {
    var capacity: nat
    var nodes: seq<Node<K, V>>
    var index: map<K, Node<K, V>>
    ghost var entries: seq<Entry<K, V>>

    ghost predicate Sound()
      reads this, nodes
    {
      1 <= capacity && Linked(nodes, index) && Mirrors(entries, nodes)
    }

    ghost predicate Valid()
      reads this, nodes
    {
      Sound() && |nodes| <= capacity
    }

    constructor (capacity: nat)
      ensures Valid() && entries == [] && nodes == [] && this.capacity == if capacity == 0 then 1 else capacity
    {
      this.capacity := if capacity == 0 then 1 else capacity;
      nodes, index, entries := [], map[], [];
    }

    /** The position in the list of the node of a key. */
    method Find(k: K) returns (i: nat)
      requires Valid() && k in index
      ensures i < |nodes| && nodes[i] == index[k] && entries[i].key == k
      ensures Drop(entries, k) == entries[..i] + entries[i + 1..] && ValueOf(entries, k) == Some(entries[i].value)
    {
      var node := index[k];
      i :| 0 <= i < |nodes| && nodes[i] == node;
      EntriesDistinct();
      FindKey(entries, i);
    }

    lemma EntriesDistinct()
      requires Valid()
      ensures DistinctKeys(entries)
    {
      forall i, j | 0 <= i < j < |nodes|
        ensures entries[i].key != entries[j].key
      {
        assert nodes[i] != nodes[j];
      }
    }

    lemma Missing(k: K)
      requires Valid() && k !in index
      ensures Drop(entries, k) == entries && ValueOf(entries, k) == None
    {
      DropNothing(entries, k);
    }

    /** move_to_front: splice the node before the others */
    method MoveToFront(i: nat)
      requires Valid() && i < |nodes|
      modifies this`nodes, this`entries
      ensures Valid() && nodes == Spliced(old(nodes), i) && entries == Spliced(old(entries), i)
    {
      if i != 0 {
        Splice(i);
      } else {
        SplicedFirst(nodes);
        SplicedFirst(entries);
      }
    }

    method Splice(i: nat)
      requires Valid() && i < |nodes|
      modifies this`nodes, this`entries
      ensures Valid() && nodes == Spliced(old(nodes), i) && entries == Spliced(old(entries), i)
    {
      LinkedSpliced(nodes, index, i);
      MirrorsSpliced(entries, nodes, i);
      nodes := Spliced(nodes, i);
      entries := Spliced(entries, i);
    }

    method Get(k: K) returns (v: Option<V>)
      requires Valid()
      modifies this`nodes, this`entries
      ensures Valid() && forall n :: n in nodes ==> n in old(nodes)
      ensures v == ValueOf(old(entries), k) && entries == Used(old(entries), k)
    {
      if k !in index {
        Missing(k);
        return None;
      }
      var node := index[k];
      var i := Find(k);
      SplicedMembers(nodes, i);
      MoveToFront(i);
      return Some(node.value);
    }

    /** Take the i-th node out of the list and the map. */
    method Erase(i: nat)
      requires Sound() && i < |nodes|
      modifies this`nodes, this`index, this`entries
      ensures Sound() && nodes == Erased(old(nodes), i) && entries == Erased(old(entries), i)
      ensures index.Keys <= old(index.Keys)
    {
      LinkedErased(nodes, index, i);
      MirrorsErased(entries, nodes, i);
      index := index - {nodes[i].key};
      nodes := Erased(nodes, i);
      entries := Erased(entries, i);
    }

    /** evict_lru; the evicted entry is what the eviction callback gets. */
    method EvictLru() returns (evicted: Option<Entry<K, V>>)
      requires Sound()
      modifies this`nodes, this`index, this`entries
      ensures Sound() && if old(entries) == [] then evicted.None? && entries == [] && nodes == []
              else evicted == Some(old(entries)[|old(entries)| - 1]) && entries == old(entries)[..|old(entries)| - 1]
                   && nodes == old(nodes)[..|old(entries)| - 1]
      ensures index.Keys <= old(index.Keys)
    {
      if |nodes| == 0 {
        return None;
      }
      var last := |nodes| - 1;
      assert entries[last] == Entry(nodes[last].key, nodes[last].value);
      evicted := Some(Entry(nodes[last].key, nodes[last].value));
      ErasedLast(nodes);
      ErasedLast(entries);
      Erase(last);
    }

    /** Put a node of a new key in front. */
    method EmplaceFront(k: K, v: V)
      requires Valid() && k !in index && |nodes| < capacity
      modifies this`nodes, this`index, this`entries
      ensures Valid() && entries == [Entry(k, v)] + old(entries)
      ensures forall n :: n in nodes ==> n in old(nodes) || fresh(n)
    {
      var node := new Node(k, v);
      LinkedAdded(nodes, index, node);
      nodes := [node] + nodes;
      index := index[k := node];
      entries := [Entry(k, v)] + entries;
    }

    method Put(k: K, v: V) returns (added: bool, evicted: Option<Entry<K, V>>)
      requires Valid()
      modifies this`nodes, this`index, this`entries, nodes
      ensures Valid() && forall n :: n in nodes ==> n in old(nodes) || fresh(n)
      ensures entries == Stored(old(entries), k, v, capacity) && added == ValueOf(old(entries), k).None?
      ensures evicted == if added && |old(entries)| >= capacity then Some(old(entries)[|old(entries)| - 1]) else None
      ensures |entries| == if added then Min(|old(entries)| + 1, capacity) else |old(entries)|
      ensures added && |old(entries)| < capacity ==> entries[1..] == old(entries)
    {
      if k in index {
        Update(k, v);
        return false, None;
      }
      evicted := Insert(k, v);
      return true, evicted;
    }

    /** The branch of put for a key that is there */
    method Update(k: K, v: V)
      requires Valid() && k in index
      modifies this`nodes, this`entries, nodes
      ensures Valid() && ValueOf(old(entries), k).Some? && entries == [Entry(k, v)] + Drop(old(entries), k)
      ensures |entries| == |old(entries)| && forall n :: n in nodes ==> n in old(nodes)
    {
      var i := Find(k);
      SplicedMembers(nodes, i);
      Assign(i, v);
      MoveToFront(i);
    }

    /** The branch of put for a new key */
    method Insert(k: K, v: V) returns (evicted: Option<Entry<K, V>>)
      requires Valid() && k !in index
      modifies this`nodes, this`index, this`entries
      ensures Valid() && ValueOf(old(entries), k).None? && entries == [Entry(k, v)] + Spared(old(entries), capacity)
      ensures evicted == if |old(entries)| >= capacity then Some(old(entries)[|old(entries)| - 1]) else None
      ensures forall n :: n in nodes ==> n in old(nodes) || fresh(n)
    {
      Missing(k);
      evicted := None;
      if |nodes| >= capacity {
        evicted := EvictLru();
      }
      EmplaceFront(k, v);
    }

    method Assign(i: nat, v: V)
      requires Valid() && i < |nodes|
      modifies this`entries, nodes[i]
      ensures Valid() && entries == old(entries)[i := Entry(old(entries)[i].key, v)]
    {
      assert entries[i].key == nodes[i].key;
      nodes[i].value := v;
      entries := entries[i := Entry(entries[i].key, v)];
    }

    /** The evicted entry is what the eviction callback gets. */
    method Remove(k: K) returns (removed: bool, evicted: Option<Entry<K, V>>)
      requires Valid()
      modifies this`nodes, this`index, this`entries
      ensures Valid() && removed == ValueOf(old(entries), k).Some? && entries == Drop(old(entries), k)
      ensures evicted == if removed then Some(Entry(k, ValueOf(old(entries), k).value)) else None
      ensures forall n :: n in nodes ==> n in old(nodes)
    {
      if k !in index {
        Missing(k);
        return false, None;
      }
      var i := Find(k);
      assert entries[i] == Entry(nodes[i].key, nodes[i].value);
      evicted := Some(Entry(nodes[i].key, nodes[i].value));
      Erase(i);
      return true, evicted;
    }

    /** The evicted entries, least recent first, are what the eviction callback gets. */
    method SetCapacity(capacity: nat) returns (evicted: seq<Entry<K, V>>)
      requires Valid()
      modifies this
      ensures Valid() && this.capacity == if capacity == 0 then 1 else capacity
      ensures entries == if |old(entries)| <= this.capacity then old(entries) else old(entries)[..this.capacity]
      ensures Shed(old(entries), entries, evicted)
    {
      this.capacity, evicted := if capacity == 0 then 1 else capacity, [];
      while |nodes| > this.capacity
        invariant Sound() && Shed(old(entries), entries, evicted) && (|entries| >= this.capacity || evicted == [])
        invariant this.capacity == if capacity == 0 then 1 else capacity
      {
        ghost var left, gone := entries, evicted;
        var entry := EvictLru();
        evicted := evicted + [entry.value];
        ShedOne(old(entries), left, gone);
        assert entries == left[..|left| - 1] && evicted == gone + [left[|left| - 1]];
      }
    }
  }

  /** Entries have gone from the end of the list, one by one. */
  ghost predicate Shed<T>(was: seq<T>, left: seq<T>, gone: seq<T>) {
    && |left| + |gone| == |was| && left == was[..|left|]
    && forall i :: 0 <= i < |gone| ==> gone[i] == was[|was| - 1 - i]
  }

  lemma ShedOne<T>(was: seq<T>, left: seq<T>, gone: seq<T>)
    requires Shed(was, left, gone) && left != []
    ensures Shed(was, left[..|left| - 1], gone + [left[|left| - 1]])
  {
  }

  function Erased<T>(s: seq<T>, i: nat): seq<T>
    requires i < |s|
  {
    s[..i] + s[i + 1..]
  }

  lemma ErasedAt<T>(s: seq<T>, i: nat, j: nat)
    requires i < |s| && j < |s| - 1
    ensures |Erased(s, i)| == |s| - 1 && Erased(s, i)[j] == s[if j < i then j else j + 1]
  {
  }

  lemma ErasedLast<T>(s: seq<T>)
    ensures s != [] ==> Erased(s, |s| - 1) == s[..|s| - 1]
  {
  }

  lemma LinkedErased<K, V>(nodes: seq<Node<K, V>>, index: map<K, Node<K, V>>, i: nat)
    requires Linked(nodes, index) && i < |nodes|
    ensures Linked(Erased(nodes, i), index - {nodes[i].key})
  {
    var rest, index' := Erased(nodes, i), index - {nodes[i].key};
    forall j | 0 <= j < |rest|
      ensures rest[j].key in index' && index'[rest[j].key] == rest[j]
    {
      ErasedAt(nodes, i, j);
    }
    forall j, l | 0 <= j < l < |rest|
      ensures rest[j] != rest[l]
    {
      ErasedAt(nodes, i, j);
      ErasedAt(nodes, i, l);
    }
    forall k | k in index'
      ensures index'[k] in rest
    {
      var j :| 0 <= j < |nodes| && nodes[j] == index[k];
      ErasedAt(nodes, i, if j < i then j else j - 1);
    }
  }

  lemma MirrorsErased<K, V>(entries: seq<Entry<K, V>>, nodes: seq<Node<K, V>>, i: nat)
    requires Mirrors(entries, nodes) && i < |nodes|
    ensures Mirrors(Erased(entries, i), Erased(nodes, i))
  {
    forall j | 0 <= j < |nodes| - 1
      ensures Erased(entries, i)[j] == Entry(Erased(nodes, i)[j].key, Erased(nodes, i)[j].value)
    {
      ErasedAt(entries, i, j);
      ErasedAt(nodes, i, j);
    }
  }

  lemma LinkedAdded<K, V>(nodes: seq<Node<K, V>>, index: map<K, Node<K, V>>, node: Node<K, V>)
    requires Linked(nodes, index) && node.key !in index
    ensures Linked([node] + nodes, index[node.key := node])
  {
    var more, index' := [node] + nodes, index[node.key := node];
    forall k | k in index'
      ensures index'[k] in more
    {
      if k != node.key {
        var j :| 0 <= j < |nodes| && nodes[j] == index[k];
        assert more[j + 1] == nodes[j];
      } else {
        assert more[0] == node;
      }
    }
  }

  // Runs on two caches

  datatype Op<K, V> = Get(key: K) | Put(key: K, value: V) | Remove(key: K)

  function Apply<K(==), V>(s: seq<Entry<K, V>>, op: Op<K, V>, capacity: nat): seq<Entry<K, V>> {
    match op
    case Get(k) => Used(s, k)
    case Put(k, v) => Stored(s, k, v, capacity)
    case Remove(k) => Drop(s, k)
  }

  /** The entries after a run from the empty cache. */
  function Cached<K(==), V>(ops: seq<Op<K, V>>, capacity: nat): seq<Entry<K, V>> {
    if ops == [] then [] else Apply(Cached(ops[..|ops| - 1], capacity), ops[|ops| - 1], capacity)
  }

  /** What a call answers, with the entry that the eviction callback gets. */
  datatype Reply<K, V> =
    | Looked(found: Option<V>)
    | Changed(done: bool, evicted: Option<Entry<K, V>>)

  function Answer<K(==), V>(s: seq<Entry<K, V>>, op: Op<K, V>, capacity: nat): Reply<K, V> {
    var found := ValueOf(s, op.key);
    match op
    case Get(_) => Looked(found)
    case Put(_, _) => Changed(found.None?, if found.None? && |s| >= capacity && s != [] then Some(s[|s| - 1]) else None)
    case Remove(k) => Changed(found.Some?, if found.Some? then Some(Entry(k, found.value)) else None)
  }

  /** The answers to a run from the empty cache. */
  function Answers<K(==), V>(ops: seq<Op<K, V>>, capacity: nat): seq<Reply<K, V>> {
    if ops == [] then []
    else Answers(ops[..|ops| - 1], capacity) + [Answer(Cached(ops[..|ops| - 1], capacity), ops[|ops| - 1], capacity)]
  }

  method Do<K(==), V>(c: LruCache<K, V>, op: Op<K, V>) returns (reply: Reply<K, V>)
    requires c.Valid()
    modifies c`nodes, c`index, c`entries, c.nodes
    ensures c.Valid() && c.entries == Apply(old(c.entries), op, c.capacity)
    ensures reply == Answer(old(c.entries), op, c.capacity)
    ensures forall n :: n in c.nodes ==> n in old(c.nodes) || fresh(n)
  {
    match op {
      case Get(k) =>
        var v := c.Get(k);
        reply := Looked(v);
      case Put(k, v) =>
        var added, evicted := c.Put(k, v);
        reply := Changed(added, evicted);
      case Remove(k) =>
        var removed, evicted := c.Remove(k);
        reply := Changed(removed, evicted);
    }
  }

  /** Every run answers, and leaves the cache, as the specification says. */
  method Run<K(==), V>(capacity: nat, ops: seq<Op<K, V>>) returns (c: LruCache<K, V>, replies: seq<Reply<K, V>>)
    ensures c.Valid() && c.capacity == (if capacity == 0 then 1 else capacity)
    ensures c.entries == Cached(ops, c.capacity) && replies == Answers(ops, c.capacity)
  {
    c := new LruCache(capacity);
    replies := [];
    for n := 0 to |ops|
      invariant c.Valid() && fresh(c) && fresh(c.nodes) && c.capacity == if capacity == 0 then 1 else capacity
      invariant c.entries == Cached(ops[..n], c.capacity) && replies == Answers(ops[..n], c.capacity)
    {
      assert ops[..n + 1][..n] == ops[..n];
      var reply := Do(c, ops[n]);
      replies := replies + [reply];
    }
    assert ops[..|ops|] == ops;
  }

  predicate Sub<T(==)>(a: seq<T>, b: seq<T>)
    decreases |b|
  {
    a == [] || (b != [] && ((a[0] == b[0] && Sub(a[1..], b[1..])) || Sub(a, b[1..])))
  }

  lemma {:induction false} SubBefore<T>(e: T, a: seq<T>, b: seq<T>)
    requires Sub(a, b)
    ensures Sub([e] + a, [e] + b) && Sub(a, [e] + b)
  {
    assert ([e] + a)[1..] == a && ([e] + b)[1..] == b;
  }

  /** The smaller list without its last, and so the larger one without its last. */
  lemma {:induction false} SubFront<T>(a: seq<T>, b: seq<T>)
    requires Sub(a, b) && a != []
    ensures Sub(a[..|a| - 1], b[..|b| - 1]) && Sub(a[..|a| - 1], b)
    decreases |b|
  {
    var a', b' := a[..|a| - 1], b[..|b| - 1];
    if |a| > 1 {
      assert |b| > 1;
      assert a'[0] == a[0] && b'[0] == b[0] && b'[1..] == b[1..][..|b| - 2] && a'[1..] == a[1..][..|a| - 2];
      if a[0] == b[0] && Sub(a[1..], b[1..]) {
        SubFront(a[1..], b[1..]);
      } else {
        SubFront(a, b[1..]);
      }
    }
  }

  lemma DropFirst<K, V>(s: seq<Entry<K, V>>, k: K)
    requires s != []
    ensures Drop(s, k) == if s[0].key == k then Drop(s[1..], k) else [s[0]] + Drop(s[1..], k)
  {
  }

  lemma {:induction false} SubDrop<K, V>(a: seq<Entry<K, V>>, b: seq<Entry<K, V>>, k: K)
    requires Sub(a, b)
    ensures Sub(Drop(a, k), Drop(b, k))
    decreases |b|
  {
    if a != [] {
      DropFirst(a, k);
      DropFirst(b, k);
      if a[0] == b[0] && Sub(a[1..], b[1..]) {
        SubDrop(a[1..], b[1..], k);
        SubBefore(a[0], Drop(a[1..], k), Drop(b[1..], k));
      } else {
        SubDrop(a, b[1..], k);
        SubBefore(b[0], Drop(a, k), Drop(b[1..], k));
      }
    }
  }

  lemma {:induction false} SubFound<K, V>(a: seq<Entry<K, V>>, b: seq<Entry<K, V>>, k: K)
    requires Sub(a, b) && DistinctKeys(b) && ValueOf(a, k).Some?
    ensures ValueOf(b, k) == ValueOf(a, k)
    decreases |b|
  {
    if a[0] == b[0] && Sub(a[1..], b[1..]) {
      if a[0].key != k {
        SubFound(a[1..], b[1..], k);
      }
    } else {
      SubFound(a, b[1..], k);
      FoundAt(b[1..], k);
    }
  }

  lemma {:induction false} FoundAt<K, V>(s: seq<Entry<K, V>>, k: K)
    requires ValueOf(s, k).Some?
    ensures exists i :: 0 <= i < |s| && s[i] == Entry(k, ValueOf(s, k).value)
  {
    if s[0].key == k {
      assert s[0] == Entry(k, ValueOf(s, k).value);
    } else {
      FoundAt(s[1..], k);
      var i :| 0 <= i < |s[1..]| && s[1..][i] == Entry(k, ValueOf(s, k).value);
      assert s[i + 1] == s[1..][i];
    }
  }

  lemma {:induction false} NotFoundDrops<K, V>(s: seq<Entry<K, V>>, k: K)
    requires ValueOf(s, k).None?
    ensures Drop(s, k) == s && forall i :: 0 <= i < |s| ==> s[i].key != k
  {
    if s != [] {
      NotFoundDrops(s[1..], k);
      assert forall i :: 0 < i < |s| ==> s[i] == s[1..][i - 1];
    }
  }

  lemma {:induction false} FoundDrops<K, V>(s: seq<Entry<K, V>>, k: K)
    requires DistinctKeys(s)
    ensures |Drop(s, k)| == if ValueOf(s, k).Some? then |s| - 1 else |s|
    ensures DistinctKeys(Drop(s, k)) && ValueOf(Drop(s, k), k).None?
  {
    if ValueOf(s, k).None? {
      NotFoundDrops(s, k);
    } else {
      FoundAt(s, k);
      var i :| 0 <= i < |s| && s[i] == Entry(k, ValueOf(s, k).value);
      FindKey(s, i);
      ErasedDistinct(s, i);
      DropNothing(Drop(s, k), k);
    }
  }

  lemma ErasedDistinct<K, V>(s: seq<Entry<K, V>>, i: nat)
    requires DistinctKeys(s) && i < |s|
    ensures DistinctKeys(Erased(s, i)) && forall j :: 0 <= j < |Erased(s, i)| ==> Erased(s, i)[j].key != s[i].key
  {
    var rest := Erased(s, i);
    forall j, l | 0 <= j < l < |rest|
      ensures rest[j].key != rest[l].key
    {
      ErasedAt(s, i, j);
      ErasedAt(s, i, l);
    }
    forall j | 0 <= j < |rest|
      ensures rest[j].key != s[i].key
    {
      ErasedAt(s, i, j);
    }
  }

  ghost predicate Fits<K, V>(s: seq<Entry<K, V>>, capacity: nat) {
    DistinctKeys(s) && |s| <= capacity
  }

  lemma ApplyFits<K, V>(s: seq<Entry<K, V>>, op: Op<K, V>, capacity: nat)
    requires Fits(s, capacity) && capacity >= 1
    ensures Fits(Apply(s, op, capacity), capacity)
  {
    FoundDrops(s, op.key);
    if ValueOf(s, op.key).None? {
      NotFoundDrops(s, op.key);
      if op.Put? {
        FirstFits(Entry(op.key, op.value), Spared(s, capacity));
      }
    } else if !op.Remove? {
      NotFoundDrops(Drop(s, op.key), op.key);
      FirstFits(Entry(op.key, if op.Put? then op.value else ValueOf(s, op.key).value), Drop(s, op.key));
    }
  }

  lemma FirstFits<K, V>(e: Entry<K, V>, s: seq<Entry<K, V>>)
    requires DistinctKeys(s) && forall i :: 0 <= i < |s| ==> s[i].key != e.key
    ensures DistinctKeys([e] + s)
  {
  }

  /** The smaller cache's entries are among the larger one's, in the same order, and the larger has at least as much
      room. */
  ghost predicate Included<K, V>(a: seq<Entry<K, V>>, b: seq<Entry<K, V>>, c1: nat, c2: nat) {
    Fits(a, c1) && Fits(b, c2) && Sub(a, b) && |b| - |a| <= c2 - c1
  }

  lemma ApplyIncluded<K, V>(a: seq<Entry<K, V>>, b: seq<Entry<K, V>>, op: Op<K, V>, c1: nat, c2: nat)
    requires 1 <= c1 <= c2 && Included(a, b, c1, c2)
    ensures Included(Apply(a, op, c1), Apply(b, op, c2), c1, c2)
  {
    var k := op.key;
    ApplyFits(a, op, c1);
    ApplyFits(b, op, c2);
    FoundDrops(a, k);
    FoundDrops(b, k);
    SubDrop(a, b, k);
    if ValueOf(a, k).Some? {
      SubFound(a, b, k);
    } else {
      NotFoundDrops(a, k);
    }
    if op.Put? {
      StoreIncluded(a, b, k, op.value, c1, c2);
    } else if op.Get? && ValueOf(b, k).Some? {
      SubBefore(Entry(k, ValueOf(b, k).value), Drop(a, k), Drop(b, k));
    }
  }

  lemma StoreIncluded<K, V>(a: seq<Entry<K, V>>, b: seq<Entry<K, V>>, k: K, v: V, c1: nat, c2: nat)
    requires 1 <= c1 <= c2 && Included(a, b, c1, c2) && Sub(Drop(a, k), Drop(b, k))
    requires ValueOf(a, k).Some? ==> ValueOf(b, k).Some?
    requires ValueOf(a, k).None? ==> Drop(a, k) == a
    requires |Drop(b, k)| == if ValueOf(b, k).Some? then |b| - 1 else |b|
    requires |Drop(a, k)| == if ValueOf(a, k).Some? then |a| - 1 else |a|
    ensures Sub(Stored(a, k, v, c1), Stored(b, k, v, c2))
    ensures |Stored(b, k, v, c2)| - |Stored(a, k, v, c1)| <= c2 - c1
  {
    var a' := if ValueOf(a, k).Some? then Drop(a, k) else Spared(a, c1);
    var b' := if ValueOf(b, k).Some? then Drop(b, k) else Spared(b, c2);
    if ValueOf(a, k).None? && |a| >= c1 {
      SubFront(a, if ValueOf(b, k).Some? then Drop(b, k) else b);
    }
    SubBefore(Entry(k, v), a', b');
  }

  /** Running the same operations on two caches, the smaller is always included in the larger. */
  lemma {:induction false} RunIncluded<K, V>(ops: seq<Op<K, V>>, c1: nat, c2: nat)
    requires 1 <= c1 <= c2
    ensures Included(Cached(ops, c1), Cached(ops, c2), c1, c2)
  {
    if ops != [] {
      RunIncluded(ops[..|ops| - 1], c1, c2);
      ApplyIncluded(Cached(ops[..|ops| - 1], c1), Cached(ops[..|ops| - 1], c2), ops[|ops| - 1], c1, c2);
    }
  }

  /** So what the smaller one answers, the larger one answers too. */
  lemma HitsAreShared<K, V>(ops: seq<Op<K, V>>, c1: nat, c2: nat, k: K)
    requires 1 <= c1 <= c2 && ValueOf(Cached(ops, c1), k).Some?
    ensures ValueOf(Cached(ops, c2), k) == ValueOf(Cached(ops, c1), k)
  {
    RunIncluded(ops, c1, c2);
    SubFound(Cached(ops, c1), Cached(ops, c2), k);
  }

  // Recency

  /** When a key was last asked for or put, counted from one. */
  function LastUse<K(==), V>(ops: seq<Op<K, V>>, k: K): nat {
    if ops == [] then 0
    else if !ops[|ops| - 1].Remove? && ops[|ops| - 1].key == k then |ops|
    else LastUse(ops[..|ops| - 1], k)
  }

  /** What was last put under a key. */
  function LastPut<K(==), V>(ops: seq<Op<K, V>>, k: K): Option<V> {
    if ops == [] then None
    else if ops[|ops| - 1].Put? && ops[|ops| - 1].key == k then Some(ops[|ops| - 1].value)
    else LastPut(ops[..|ops| - 1], k)
  }

  ghost predicate ByRecency<K, V>(s: seq<Entry<K, V>>, ops: seq<Op<K, V>>) {
    && (forall i, j :: 0 <= i < j < |s| ==> LastUse(ops, s[i].key) > LastUse(ops, s[j].key))
    && (forall i :: 0 <= i < |s| ==> LastPut(ops, s[i].key) == Some(s[i].value))
  }

  lemma {:induction false} LastUseBound<K, V>(ops: seq<Op<K, V>>, k: K)
    ensures LastUse(ops, k) <= |ops|
  {
    if ops != [] {
      LastUseBound(ops[..|ops| - 1], k);
    }
  }

  /** The list is ordered by last use, and every cached value is the last one put: the entry at its end, which goes when
      the cache is full, is the one whose last use is longest ago. */
  lemma {:induction false} RunByRecency<K, V>(ops: seq<Op<K, V>>, capacity: nat)
    requires capacity >= 1
    ensures ByRecency(Cached(ops, capacity), ops)
  {
    if ops != [] {
      var front, op := ops[..|ops| - 1], ops[|ops| - 1];
      RunByRecency(front, capacity);
      RunIncluded(front, capacity, capacity);
      var s := Cached(front, capacity);
      StepByRecency(s, front, op, capacity);
      assert ops == front + [op];
    }
  }

  lemma LastFurther<K, V>(ops: seq<Op<K, V>>, op: Op<K, V>, k: K)
    ensures k != op.key ==> LastUse(ops + [op], k) == LastUse(ops, k) && LastPut(ops + [op], k) == LastPut(ops, k)
    ensures k == op.key && !op.Remove? ==> LastUse(ops + [op], k) == |ops| + 1
    ensures k == op.key ==> LastPut(ops + [op], k) == if op.Put? then Some(op.value) else LastPut(ops, k)
  {
    assert (ops + [op])[..|ops|] == ops;
  }

  lemma StepByRecency<K, V>(s: seq<Entry<K, V>>, ops: seq<Op<K, V>>, op: Op<K, V>, capacity: nat)
    requires DistinctKeys(s) && ByRecency(s, ops)
    ensures ByRecency(Apply(s, op, capacity), ops + [op])
  {
    if ValueOf(s, op.key).Some? {
      FoundByRecency(s, ops, op, capacity);
    } else {
      MissedByRecency(s, ops, op, capacity);
    }
  }

  lemma FoundByRecency<K, V>(s: seq<Entry<K, V>>, ops: seq<Op<K, V>>, op: Op<K, V>, capacity: nat)
    requires DistinctKeys(s) && ByRecency(s, ops) && ValueOf(s, op.key).Some?
    ensures ByRecency(Apply(s, op, capacity), ops + [op])
  {
    var k := op.key;
    FoundAt(s, k);
    var p: nat :| p < |s| && s[p] == Entry(k, ValueOf(s, k).value);
    FindKey(s, p);
    ErasedByRecency(s, ops, op, p);
    LastFurther(ops, op, k);
    if !op.Remove? {
      FirstByRecency(Drop(s, k), ops, op, if op.Put? then op.value else s[p].value);
    }
  }

  lemma MissedByRecency<K, V>(s: seq<Entry<K, V>>, ops: seq<Op<K, V>>, op: Op<K, V>, capacity: nat)
    requires ByRecency(s, ops) && ValueOf(s, op.key).None?
    ensures ByRecency(Apply(s, op, capacity), ops + [op])
  {
    NotFoundDrops(s, op.key);
    if op.Put? {
      var rest := Spared(s, capacity);
      PrefixByRecency(s, ops, op, |rest|);
      assert rest == s[..|rest|];
      LastFurther(ops, op, op.key);
      FirstByRecency(rest, ops, op, op.value);
    } else {
      PrefixByRecency(s, ops, op, |s|);
      assert s[..|s|] == s;
    }
  }

  /** The entry of the key used last goes in front. */
  lemma FirstByRecency<K, V>(rest: seq<Entry<K, V>>, ops: seq<Op<K, V>>, op: Op<K, V>, v: V)
    requires ByRecency(rest, ops + [op]) && !op.Remove? && LastPut(ops + [op], op.key) == Some(v)
    requires forall i :: 0 <= i < |rest| ==> rest[i].key != op.key
    ensures ByRecency([Entry(op.key, v)] + rest, ops + [op])
  {
    LastFurther(ops, op, op.key);
    forall i | 0 <= i < |rest|
      ensures LastUse(ops + [op], rest[i].key) < |ops| + 1
    {
      LastFurther(ops, op, rest[i].key);
      LastUseBound(ops, rest[i].key);
    }
  }

  lemma PrefixByRecency<K, V>(s: seq<Entry<K, V>>, ops: seq<Op<K, V>>, op: Op<K, V>, n: nat)
    requires ByRecency(s, ops) && n <= |s| && forall i :: 0 <= i < |s| ==> s[i].key != op.key
    ensures ByRecency(s[..n], ops + [op])
  {
    forall i | 0 <= i < n
      ensures LastUse(ops + [op], s[i].key) == LastUse(ops, s[i].key)
      ensures LastPut(ops + [op], s[i].key) == LastPut(ops, s[i].key)
    {
      LastFurther(ops, op, s[i].key);
    }
  }

  lemma ErasedByRecency<K, V>(s: seq<Entry<K, V>>, ops: seq<Op<K, V>>, op: Op<K, V>, p: nat)
    requires DistinctKeys(s) && ByRecency(s, ops) && p < |s| && s[p].key == op.key
    ensures ByRecency(Erased(s, p), ops + [op])
    ensures forall i :: 0 <= i < |Erased(s, p)| ==> Erased(s, p)[i].key != op.key
    ensures !op.Put? ==> LastPut(ops + [op], op.key) == Some(s[p].value)
  {
    var rest := Erased(s, p);
    forall i | 0 <= i < |rest|
      ensures rest[i].key != op.key && LastUse(ops + [op], rest[i].key) == LastUse(ops, rest[i].key)
      ensures LastPut(ops + [op], rest[i].key) == LastPut(ops, rest[i].key) == Some(rest[i].value)
    {
      ErasedAt(s, p, i);
      LastFurther(ops, op, rest[i].key);
    }
    forall i, j | 0 <= i < j < |rest|
      ensures LastUse(ops, rest[i].key) > LastUse(ops, rest[j].key)
    {
      ErasedAt(s, p, i);
      ErasedAt(s, p, j);
    }
    LastFurther(ops, op, op.key);
  }

  // Retention, in terms of the operations alone

  /** The key is still there: it was put, and not removed since, and at every moment since it was last put or hit, fewer
      than capacity other keys had been put or hit after that and not been removed. */
  ghost predicate Alive<K, V>(ops: seq<Op<K, V>>, capacity: nat, k: K)
    decreases |ops|, 2
  {
    if ops == [] then false
    else
      var front, op := ops[..|ops| - 1], ops[|ops| - 1];
      if op.key == k && op.Put? then true
      else if op.key == k && op.Remove? then false
      else Alive(front, capacity, k) && |Since(ops, capacity, k)| < capacity
  }

  /** The last operation puts a key, or asks for one that is there. */
  ghost predicate Uses<K, V>(ops: seq<Op<K, V>>, capacity: nat)
    requires ops != []
    decreases |ops|, 0
  {
    ops[|ops| - 1].Put? || (ops[|ops| - 1].Get? && Alive(ops[..|ops| - 1], capacity, ops[|ops| - 1].key))
  }

  /** The other keys put or hit since the key was last put or hit, and not removed. */
  ghost function Since<K, V>(ops: seq<Op<K, V>>, capacity: nat, k: K): set<K>
    decreases |ops|, 1
  {
    if ops == [] then {}
    else
      var before, op := Since(ops[..|ops| - 1], capacity, k), ops[|ops| - 1];
      if Uses(ops, capacity) then (if op.key == k then {} else before + {op.key})
      else if op.Remove? then before - {op.key} else before
  }

  lemma SinceStep<K, V>(ops: seq<Op<K, V>>, c: nat, k: K)
    requires ops != [] && ops[|ops| - 1].key != k
    ensures var front, op := ops[..|ops| - 1], ops[|ops| - 1];
            Since(ops, c, k) == if op.Put? || (op.Get? && Alive(front, c, op.key)) then Since(front, c, k) + {op.key}
                                else if op.Remove? then Since(front, c, k) - {op.key} else Since(front, c, k)
  {
  }

  /** The keys in front of a key in the list. */
  ghost function Ahead<K, V>(s: seq<Entry<K, V>>, k: K): set<K> {
    if s == [] || s[0].key == k then {} else {s[0].key} + Ahead(s[1..], k)
  }

  lemma {:induction false} AheadMembers<K, V>(s: seq<Entry<K, V>>, k: K, j: K)
    requires j in Ahead(s, k)
    ensures ValueOf(s, j).Some? && j != k
  {
    if s[0].key != j {
      AheadMembers(s[1..], k, j);
    }
  }

  /** Of a list without repetitions as many keys are in front of an entry as entries. */
  lemma {:induction false} AheadSize<K, V>(s: seq<Entry<K, V>>, k: K)
    requires DistinctKeys(s) && ValueOf(s, k).Some?
    ensures |Ahead(s, k)| < |s| && (|Ahead(s, k)| == |s| - 1 <==> s[|s| - 1].key == k)
  {
    if s[0].key != k {
      AheadSize(s[1..], k);
      if s[0].key in Ahead(s[1..], k) {
        AheadMembers(s[1..], k, s[0].key);
        FoundAt(s[1..], s[0].key);
      }
      assert s[1..] != [] && s[1..][|s| - 2] == s[|s| - 1];
    } else if |s| > 1 {
      assert s[0].key != s[|s| - 1].key;
    }
  }

  lemma {:induction false} AheadDropped<K, V>(s: seq<Entry<K, V>>, j: K, k: K)
    requires j != k
    ensures ValueOf(Drop(s, j), k) == ValueOf(s, k)
    ensures ValueOf(s, k).Some? ==> Ahead(Drop(s, j), k) == Ahead(s, k) - {j}
  {
    if s != [] {
      DropFirst(s, j);
      AheadDropped(s[1..], j, k);
      if s[0].key != j {
        FirstAhead(s[0], Drop(s[1..], j), k);
      }
    }
  }

  lemma FirstAhead<K, V>(e: Entry<K, V>, s: seq<Entry<K, V>>, k: K)
    ensures ValueOf([e] + s, k) == if e.key == k then Some(e.value) else ValueOf(s, k)
    ensures Ahead([e] + s, k) == if e.key == k then {} else {e.key} + Ahead(s, k)
  {
    assert ([e] + s)[1..] == s;
  }

  lemma {:induction false} AheadShortened<K, V>(s: seq<Entry<K, V>>, k: K)
    requires DistinctKeys(s) && s != []
    ensures ValueOf(s[..|s| - 1], k) == if s[|s| - 1].key == k then None else ValueOf(s, k)
    ensures ValueOf(s, k).Some? && s[|s| - 1].key != k ==> Ahead(s[..|s| - 1], k) == Ahead(s, k)
  {
    if |s| > 1 {
      var t := s[1..];
      assert t[|t| - 1] == s[|s| - 1] && s[..|s| - 1] == [s[0]] + t[..|t| - 1] && s[0].key != s[|s| - 1].key;
      AheadShortened(t, k);
      FirstAhead(s[0], t[..|t| - 1], k);
    }
  }

  /** A new key in front costs a full list its last entry. */
  lemma NewKeyAhead<K, V>(s: seq<Entry<K, V>>, e: Entry<K, V>, c: nat, k: K)
    requires Fits(s, c) && c >= 1 && e.key != k && ValueOf(s, k).Some? && ValueOf(s, e.key).None?
    ensures var t := [e] + Spared(s, c);
            && (ValueOf(t, k).Some? <==> |Ahead(s, k) + {e.key}| < c)
            && (ValueOf(t, k).Some? ==> Ahead(t, k) == Ahead(s, k) + {e.key})
  {
    AheadSize(s, k);
    if e.key in Ahead(s, k) {
      AheadMembers(s, k, e.key);
    }
    AheadShortened(s, k);
    FirstAhead(e, Spared(s, c), k);
  }

  /** A key moved to the front is ahead of every other. */
  lemma MovedAhead<K, V>(s: seq<Entry<K, V>>, e: Entry<K, V>, c: nat, k: K)
    requires Fits(s, c) && e.key != k && ValueOf(s, k).Some? && ValueOf(s, e.key).Some?
    ensures var t := [e] + Drop(s, e.key);
            ValueOf(t, k).Some? && Ahead(t, k) == Ahead(s, k) + {e.key} && |Ahead(t, k)| < c
  {
    var rest := Drop(s, e.key);
    AheadDropped(s, e.key, k);
    FirstAhead(e, rest, k);
    assert {e.key} + (Ahead(s, k) - {e.key}) == Ahead(s, k) + {e.key};
    FrontFits(s, e);
    AheadSize([e] + rest, k);
  }

  lemma FrontFits<K, V>(s: seq<Entry<K, V>>, e: Entry<K, V>)
    requires DistinctKeys(s) && ValueOf(s, e.key).Some?
    ensures DistinctKeys([e] + Drop(s, e.key)) && |[e] + Drop(s, e.key)| == |s|
  {
    FoundDrops(s, e.key);
    NotFoundDrops(Drop(s, e.key), e.key);
    FirstFits(e, Drop(s, e.key));
  }

  /** What one operation does to a key that it is not about. */
  lemma OthersAhead<K, V>(s: seq<Entry<K, V>>, op: Op<K, V>, c: nat, k: K, since: set<K>)
    requires Fits(s, c) && c >= 1 && op.key != k && ValueOf(s, k).Some?
    requires since == if op.Put? || (op.Get? && ValueOf(s, op.key).Some?) then Ahead(s, k) + {op.key}
                      else if op.Remove? then Ahead(s, k) - {op.key} else Ahead(s, k)
    ensures ValueOf(Apply(s, op, c), k).Some? <==> |since| < c
    ensures ValueOf(Apply(s, op, c), k).Some? ==> Ahead(Apply(s, op, c), k) == since
  {
    AheadSize(s, k);
    match op
    case Get(j) =>
      if ValueOf(s, j).Some? {
        MovedAhead(s, Entry(j, ValueOf(s, j).value), c, k);
      }
    case Put(j, v) =>
      if ValueOf(s, j).Some? {
        MovedAhead(s, Entry(j, v), c, k);
      } else {
        NewKeyAhead(s, Entry(j, v), c, k);
      }
    case Remove(j) =>
      AheadDropped(s, j, k);
      SubsetSize(since, Ahead(s, k));
  }

  /** A key is cached exactly when it is still there in this sense, and then the keys in front of it are those used
      since. */
  lemma {:induction false} CachedWhileAlive<K, V>(ops: seq<Op<K, V>>, c: nat, k: K)
    requires c >= 1
    ensures ValueOf(Cached(ops, c), k).Some? <==> Alive(ops, c, k)
    ensures Alive(ops, c, k) ==> Since(ops, c, k) == Ahead(Cached(ops, c), k)
    decreases |ops|
  {
    if ops != [] {
      var front, op := ops[..|ops| - 1], ops[|ops| - 1];
      var s := Cached(front, c);
      RunIncluded(front, c, c);
      CachedWhileAlive(front, c, k);
      CachedWhileAlive(front, c, op.key);
      if op.key != k {
        if ValueOf(s, k).Some? {
          SinceStep(ops, c, k);
          OthersAhead(s, op, c, k, Since(ops, c, k));
        } else {
          OthersMissing(s, op, c, k);
        }
      } else {
        FoundDrops(s, k);
        if op.Put? {
          FirstAhead(Entry(k, op.value), if ValueOf(s, k).Some? then Drop(s, k) else Spared(s, c), k);
        } else if op.Get? && ValueOf(s, k).Some? {
          FirstAhead(Entry(k, ValueOf(s, k).value), Drop(s, k), k);
        }
      }
    }
  }

  lemma OthersMissing<K, V>(s: seq<Entry<K, V>>, op: Op<K, V>, c: nat, k: K)
    requires Fits(s, c) && op.key != k && ValueOf(s, k).None?
    ensures ValueOf(Apply(s, op, c), k).None?
  {
    AheadDropped(s, op.key, k);
    if s != [] {
      AheadShortened(s, k);
    }
    if op.Put? {
      FirstAhead(Entry(op.key, op.value), if ValueOf(s, op.key).Some? then Drop(s, op.key) else Spared(s, c), k);
    } else if op.Get? && ValueOf(s, op.key).Some? {
      FirstAhead(Entry(op.key, ValueOf(s, op.key).value), Drop(s, op.key), k);
    }
  }

  /** After every run, asking for a key finds the value last put under it, or nothing, as this says. */
  lemma RetainedExactlyWhen<K, V>(ops: seq<Op<K, V>>, c: nat, k: K)
    requires c >= 1
    ensures ValueOf(Cached(ops, c), k) == if Alive(ops, c, k) then LastPut(ops, k) else None
  {
    CachedWhileAlive(ops, c, k);
    RunByRecency(ops, c);
    if Alive(ops, c, k) {
      FoundAt(Cached(ops, c), k);
    }
  }

  /** Where nothing is removed, a key that was put is there exactly when fewer than capacity other keys have been put or
      hit since it was last put or hit. */
  lemma {:induction false} AliveWithoutRemovals<K, V>(ops: seq<Op<K, V>>, c: nat, k: K)
    requires c >= 1 && forall i :: 0 <= i < |ops| ==> !ops[i].Remove?
    ensures Alive(ops, c, k) <==> LastPut(ops, k).Some? && |Since(ops, c, k)| < c
    decreases |ops|
  {
    if ops != [] {
      AliveWithoutRemovals(ops[..|ops| - 1], c, k);
      SubsetSize(Since(ops[..|ops| - 1], c, k), Since(ops[..|ops| - 1], c, k) + {ops[|ops| - 1].key});
    }
  }

  /** A removal makes room: with two other keys put since, a key is still in a cache of two when one was removed
      between. */
  lemma RemovalMakesRoom<V>(a: V, b: V, c: V)
    ensures ValueOf(Cached([Put(1, a), Put(2, b), Remove(2), Put(3, c)], 2), 1) == Some(a)
  {
    var ops := [Put(1, a), Put(2, b), Remove(2), Put(3, c)];
    var one := [Entry(1, a)];
    var two := [Entry(2, b)] + one;
    assert one[1..] == [] && two[1..] == one && ([Entry(3, c)] + one)[1..] == one;
    assert ValueOf(one, 2) == ValueOf(one, 3) == None && Drop(two, 2) == Drop(one, 2) == one;
    assert ops[..3][..2] == [Put(1, a), Put(2, b)] && ops[..3][..2][..1] == [Put(1, a)];
    assert Cached(ops[..3][..2][..1], 2) == one;
    assert Cached(ops[..3][..2], 2) == two;
    assert Cached(ops[..3], 2) == one;
    assert Cached(ops, 2) == [Entry(3, c)] + one;
  }
}
