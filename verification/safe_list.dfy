/** The list that survives deletion while it is being walked: a circular doubly-linked
    list whose nodes carry the chain of iterators that will visit them next.  Deleting a
    node hands its iterators on to its successor.

    `ring` is the ghost order of the nodes, the list head first; `chains[k]` are the
    iterators that hang on ring[k]. */
module SafeLists {
  import opened Basics

  class Node {
    var next: Node?
    var prev: Node?
    var i: Iter?

    constructor ()
      ensures next == prev == this && i == null
    {
      next, prev, i := this, this, null;
    }
  }

  /** A pointer to an iterator pointer: the `i` field of a node or the `next_i` field of an iterator. */
  datatype Ref = Nowhere | OfNode(n: Node) | OfIter(it: Iter)

  class Iter {
    var head: Ref
    var nextI: Iter?
    var next: Node?

    constructor ()
      ensures next == null
    {
      head, nextI, next := Nowhere, null, null;
    }
  }

  // ----- positions

  function Succ(n: nat, k: nat): (s: nat)
    requires k < n
    ensures s < n
  {
    if k + 1 == n then 0 else k + 1
  }

  function Pred(n: nat, k: nat): (p: nat)
    requires k < n
    ensures p < n && Succ(n, p) == k
  {
    if k == 0 then n - 1 else k - 1
  }

  ghost function First(chain: seq<Iter>): Iter? {
    if chain == [] then null else chain[0]
  }

  ghost function After(chain: seq<Iter>, j: nat): Iter? {
    if j + 1 < |chain| then chain[j + 1] else null
  }

  ghost function RefTo(x: Node, chain: seq<Iter>, j: nat): Ref
    requires j < |chain|
  {
    if j == 0 then OfNode(x) else OfIter(chain[j - 1])
  }

  ghost predicate LinkAt(ring: seq<Node>, k: nat)
    requires k < |ring|
    reads ring
  {
    ring[k].next == ring[Succ(|ring|, k)] && ring[k].prev == ring[Pred(|ring|, k)]
  }

  ghost predicate RingAt(ring: seq<Node>, chains: seq<seq<Iter>>, k: nat)
    requires k < |ring| == |chains|
    reads ring
  {
    LinkAt(ring, k) && ring[k].i == First(chains[k])
  }

  ghost predicate IterAt(x: Node, chain: seq<Iter>, j: nat)
    requires j < |chain|
    reads chain
  {
    chain[j].next == x && chain[j].nextI == After(chain, j) && chain[j].head == RefTo(x, chain, j)
  }

  ghost function Iters(chains: seq<seq<Iter>>): set<Iter> {
    set k, j | 0 <= k < |chains| && 0 <= j < |chains[k]| :: chains[k][j]
  }

  ghost predicate DistinctIters(chains: seq<seq<Iter>>) {
    && (forall k :: 0 <= k < |chains| ==> Distinct(chains[k]))
    && (forall k, k', it :: 0 <= k < k' < |chains| && it in chains[k] ==> it !in chains[k'])
  }

  ghost function NodeSet(ring: seq<Node>): set<Node> {
    set x | x in ring
  }

  ghost function ElementsOf(chain: seq<Iter>): set<Iter> {
    set u | u in chain
  }

  ghost predicate RingOk(ring: seq<Node>, chains: seq<seq<Iter>>)
    requires |ring| == |chains|
    reads ring
  {
    forall k: nat {:trigger RingAt(ring, chains, k)} :: k < |ring| ==> RingAt(ring, chains, k)
  }

  ghost predicate ChainOk(x: Node, chain: seq<Iter>)
    reads chain
  {
    forall j: nat {:trigger IterAt(x, chain, j)} :: j < |chain| ==> IterAt(x, chain, j)
  }

  /** The chains after the node at position k has been deleted: its chain is put in front of the next one. */
  ghost function Merged(chains: seq<seq<Iter>>, k: nat): (r: seq<seq<Iter>>)
    requires 0 < k < |chains|
    ensures |r| == |chains| - 1
  {
    var m := Succ(|chains|, k);
    DropAt(chains[m := chains[k] + chains[m]], k)
  }

  lemma MergedAt(chains: seq<seq<Iter>>, k: nat, c: nat)
    requires 0 < k < |chains| && c < |chains| - 1
    ensures var o := if c < k then c else c + 1;
            var m := Succ(|chains|, k);
            Merged(chains, k)[c] == if o == m then chains[k] + chains[m] else chains[o]
  {
  }

  /** The links after a deletion, in the numbering before it. */
  ghost predicate Spliced(ring: seq<Node>, chains: seq<seq<Iter>>, k: nat)
    requires 0 < k < |ring| == |chains|
    reads ring, Iters(chains)
  {
    && (forall c: nat {:trigger LinkAt(DropAt(ring, k), c)} :: c < |ring| - 1 ==> LinkAt(DropAt(ring, k), c))
    && HungAfter(ring, chains, k)
  }

  ghost predicate HungAfter(ring: seq<Node>, chains: seq<seq<Iter>>, k: nat)
    requires 0 < k < |ring| == |chains|
    reads ring, Iters(chains)
  {
    var m := Succ(|ring|, k);
    && ChainOk(ring[m], chains[k] + chains[m]) && ring[m].i == First(chains[k] + chains[m])
    && (forall c: nat {:trigger HungAt(ring, chains, c)} :: c < |ring| && c != k && c != m ==> HungAt(ring, chains, c))
  }

  lemma Reindexed(ring: seq<Node>, chains: seq<seq<Iter>>, k: nat)
    requires 0 < k < |ring| == |chains| && Spliced(ring, chains, k)
    ensures RingOk(DropAt(ring, k), Merged(chains, k))
    ensures forall c: nat {:trigger ChainOk(DropAt(ring, k)[c], Merged(chains, k)[c])} ::
              c < |ring| - 1 ==> ChainOk(DropAt(ring, k)[c], Merged(chains, k)[c])
  {
    var ring', chains' := DropAt(ring, k), Merged(chains, k);
    forall c: nat | c < |ring| - 1
      ensures ChainOk(ring'[c], chains'[c]) && RingAt(ring', chains', c)
    {
      var o, m := if c < k then c else c + 1, Succ(|ring|, k);
      MergedAt(chains, k, c);
      assert ring'[c] == ring[o] && LinkAt(ring', c);
      if o != m {
        assert HungAt(ring, chains, o);
      }
    }
  }

  lemma ConcatDistinct<X>(a: seq<X>, b: seq<X>)
    requires Distinct(a) && Distinct(b) && forall x :: x in a ==> x !in b
    ensures Distinct(a + b)
  {
    forall i, j | 0 <= i < j < |a + b|
      ensures (a + b)[i] != (a + b)[j]
    {
      if i < |a| <= j {
        assert a[i] in a && b[j - |a|] in b;
      }
    }
  }

  lemma MergedDistinct(chains: seq<seq<Iter>>, k: nat)
    requires 0 < k < |chains| && DistinctIters(chains)
    ensures DistinctIters(Merged(chains, k))
  {
    var m := Succ(|chains|, k);
    var chain := chains[k] + chains[m];
    var r := Merged(chains, k);
    assert forall it :: it in chain ==> it in chains[k] || it in chains[m];
    OtherChains(chains, m, k);
    ConcatDistinct(chains[k], chains[m]);
    forall c: nat | c < |r|
      ensures Distinct(r[c])
    {
      MergedAt(chains, k, c);
    }
    forall a: nat, b: nat, it | a < b < |r| && it in r[a]
      ensures it !in r[b]
    {
      MergedAt(chains, k, a);
      MergedAt(chains, k, b);
    }
  }

  lemma OtherChains(chains: seq<seq<Iter>>, m: nat, c: nat)
    requires DistinctIters(chains) && m < |chains| && c < |chains| && c != m
    ensures forall u :: u in chains[c] ==> u !in chains[m] && u !in ElementsOf(chains[m])
  {
  }

  lemma OtherChain(chains: seq<seq<Iter>>, m: nat, c: nat, it: Iter)
    requires DistinctIters(chains) && m < |chains| && c < |chains| && c != m && it !in Iters(chains)
    ensures forall u :: u in chains[c] ==> u != it && u !in chains[m]
  {
  }

  lemma PushDistinct(chains: seq<seq<Iter>>, m: nat, it: Iter)
    requires DistinctIters(chains) && m < |chains| && it !in Iters(chains)
    ensures DistinctIters(chains[m := [it] + chains[m]])
  {
    assert forall k :: 0 <= k < |chains| ==> it !in chains[k];
  }

  ghost function DropAt<X>(s: seq<X>, k: nat): (r: seq<X>)
    requires k < |s|
    ensures |r| == |s| - 1
  {
    s[..k] + s[k + 1..]
  }

  lemma WithoutDistinct(chains: seq<seq<Iter>>, k: nat, j: nat)
    requires DistinctIters(chains) && k < |chains| && j < |chains[k]|
    ensures DistinctIters(chains[k := DropAt(chains[k], j)])
  {
    assert forall it :: it in DropAt(chains[k], j) ==> it in chains[k];
  }

  ghost predicate HungAt(ring: seq<Node>, chains: seq<seq<Iter>>, k: nat)
    requires k < |ring| == |chains|
    reads ring, Iters(chains)
  {
    ChainOk(ring[k], chains[k]) && ring[k].i == First(chains[k])
  }

  ghost predicate Hung(ring: seq<Node>, chains: seq<seq<Iter>>)
    requires |ring| == |chains|
    reads ring, Iters(chains)
  {
    forall c: nat {:trigger HungAt(ring, chains, c)} :: c < |ring| ==> HungAt(ring, chains, c)
  }

  class SafeList {
    const head: Node
    ghost var ring: seq<Node>
    ghost var chains: seq<seq<Iter>>

    ghost predicate Valid()
      reads this, ring, Iters(chains)
    {
      && |ring| == |chains| >= 1 && ring[0] == head
      && Distinct(ring) && DistinctIters(chains)
      && RingOk(ring, chains)
      && forall k: nat {:trigger ChainOk(ring[k], chains[k])} :: k < |ring| ==> ChainOk(ring[k], chains[k])
    }

    constructor (head: Node)
      modifies head
      ensures Valid() && ring == [head] && this.head == head && chains == [[]]
    {
      this.head := head;
      ring, chains := [head], [[]];
      new;
      head.next, head.prev, head.i := head, head, null;
    }

    /** __safe_list_set_iterator, from the node that the iterator will visit next: put it in front of the chain. */
    static method Hook(next: Node, it: Iter, ghost chain: seq<Iter>)
      requires ChainOk(next, chain) && Distinct(chain) && next.i == First(chain) && it !in chain
      modifies next`i, it, ElementsOf(chain)`head
      ensures ChainOk(next, [it] + chain) && next.i == it
    {
      if chain != [] {
        assert IterAt(next, chain, 0);
      }
      var nextI := next.i;
      next.i := it;
      it.next := next;
      it.head := OfNode(next);
      it.nextI := nextI;
      if nextI != null {
        nextI.head := OfIter(it);
      }
      forall j: nat | j < |chain| + 1
        ensures IterAt(next, [it] + chain, j)
      {
        if j > 0 {
          assert old(IterAt(next, chain, j - 1));
        }
      }
    }

    /** Write through a pointer to an iterator pointer. */
    static method Store(ref: Ref, it: Iter?)
      requires !ref.Nowhere?
      modifies (if ref.OfNode? then {ref.n} else {})`i, (if ref.OfIter? then {ref.it} else {})`nextI
      ensures ref.OfNode? ==> ref.n.i == it
      ensures ref.OfIter? ==> ref.it.nextI == it
    {
      match ref
      case OfNode(n) => n.i := it;
      case OfIter(u) => u.nextI := it;
    }

    /** __safe_list_del_iterator */
    static method Unhook(it: Iter, ghost x: Node, ghost chain: seq<Iter>, ghost j: nat)
      requires ChainOk(x, chain) && Distinct(chain) && x.i == First(chain) && j < |chain| && chain[j] == it
      modifies x`i, ElementsOf(chain)`head, ElementsOf(chain)`nextI
      ensures ChainOk(x, DropAt(chain, j)) && x.i == First(DropAt(chain, j))
    {
      assert IterAt(x, chain, j);
      Store(it.head, it.nextI);
      if it.nextI != null {
        it.nextI.head := it.head;
      }
      forall u: nat | u < |chain| - 1
        ensures IterAt(x, DropAt(chain, j), u)
      {
        assert old(IterAt(x, chain, if u < j then u else u + 1));
      }
    }

    method SetIterator(list: Node, it: Iter, ghost k: nat)
      requires Valid() && k < |ring| && ring[k] == list && it !in Iters(chains)
      modifies this`chains, NodeSet(ring)`i, Iters(chains)`head, it
      ensures Valid()
      ensures var m := Succ(|ring|, k); chains == old(chains)[m := [it] + old(chains)[m]]
    {
      ghost var m := Succ(|ring|, k);
      ghost var before := chains;
      assert RingAt(ring, chains, k) && RingAt(ring, chains, m) && ChainOk(ring[m], chains[m]);
      Hook(list.next, it, chains[m]);
      PushDistinct(chains, m, it);
      chains := chains[m := [it] + chains[m]];
      forall c: nat | c < |ring|
        ensures ChainOk(ring[c], chains[c]) && RingAt(ring, chains, c)
      {
        if c != m {
          OtherChain(before, m, c, it);
        }
        assert old(ChainOk(ring[c], chains[c])) && old(RingAt(ring, chains, c));
      }
    }

    method DelIterator(it: Iter, ghost k: nat, ghost j: nat)
      requires Valid() && k < |ring| && j < |chains[k]| && chains[k][j] == it
      modifies this`chains, NodeSet(ring)`i, Iters(chains)`head, Iters(chains)`nextI
      ensures Valid() && chains == old(chains)[k := DropAt(old(chains)[k], j)]
    {
      ghost var before := chains;
      assert RingAt(ring, chains, k) && ChainOk(ring[k], chains[k]);
      Unhook(it, ring[k], chains[k], j);
      WithoutDistinct(chains, k, j);
      chains := chains[k := DropAt(chains[k], j)];
      forall c: nat | c < |ring|
        ensures ChainOk(ring[c], chains[c]) && RingAt(ring, chains, c)
      {
        if c != k {
          OtherChains(before, k, c);
        }
        assert old(ChainOk(ring[c], chains[c])) && old(RingAt(ring, chains, c));
      }
    }

    /** list_del: unlink a node and clear its links. */
    static method ListDel(x: Node, ghost ring: seq<Node>, ghost k: nat)
      requires Distinct(ring) && 0 < k < |ring| && ring[k] == x
      requires forall c: nat {:trigger LinkAt(ring, c)} :: c < |ring| ==> LinkAt(ring, c)
      modifies NodeSet(ring)`next, NodeSet(ring)`prev
      ensures x.next == null && x.prev == null
      ensures forall c: nat {:trigger LinkAt(DropAt(ring, k), c)} :: c < |ring| - 1 ==> LinkAt(DropAt(ring, k), c)
    {
      assert LinkAt(ring, k);
      var prev, next := x.prev, x.next;
      next.prev := prev;
      prev.next := next;
      x.next, x.prev := null, null;
      forall c: nat | c < |ring| - 1
        ensures LinkAt(DropAt(ring, k), c)
      {
        assert old(LinkAt(ring, if c < k then c else c + 1));
      }
    }

    /** Walk a chain, make each iterator name `next`, and find where the chain ends. */
    static method Retarget(first: Iter, next: Node, ghost x: Node, ghost cx: seq<Iter>) returns (tail: Iter)
      requires cx != [] && first == cx[0] && ChainOk(x, cx) && Distinct(cx)
      modifies ElementsOf(cx)`next
      ensures tail == cx[|cx| - 1] && forall u: nat {:trigger cx[u].next} :: u < |cx| ==> cx[u].next == next
    {
      var i: Iter? := first;
      ghost var p: nat := 0;
      tail := first;
      while i != null
        invariant p <= |cx| && i == (if p < |cx| then cx[p] else null)
        invariant p > 0 ==> tail == cx[p - 1]
        invariant forall u: nat {:trigger cx[u].next} :: u < p ==> cx[u].next == next
        decreases |cx| - p
      {
        assert old(IterAt(x, cx, p));
        tail := i;
        i.next := next;
        i, p := i.nextI, p + 1;
      }
    }

    /** The iterators that would have visited `x` next are put in front of those of `next`. */
    static method HandOver(x: Node, next: Node, ghost cx: seq<Iter>, ghost cn: seq<Iter>)
      requires x != next && ChainOk(x, cx) && ChainOk(next, cn) && x.i == First(cx) && next.i == First(cn)
      requires Distinct(cx) && Distinct(cn) && ElementsOf(cx) !! ElementsOf(cn)
      modifies x`i, next`i, ElementsOf(cx), ElementsOf(cn)`head
      ensures ChainOk(next, cx + cn) && next.i == First(cx + cn) && x.i == null
    {
      if x.i == null {
        assert cx + cn == cn;
        return;
      }
      var nextI := next.i;
      if cn != [] {
        assert IterAt(next, cn, 0) && cn[0] in ElementsOf(cn);
      }
      assert cx[0] in ElementsOf(cx) && cx[|cx| - 1] in ElementsOf(cx);
      var tail := Retarget(x.i, next, x, cx);
      next.i := x.i;
      x.i.head := OfNode(next);
      tail.nextI := nextI;
      if nextI != null {
        nextI.head := OfIter(tail);
      }
      x.i := null;
      forall j: nat | j < |cx + cn|
        ensures IterAt(next, cx + cn, j)
      {
        if j < |cx| {
          assert cx[j] in ElementsOf(cx) && old(IterAt(x, cx, j));
        } else {
          assert cn[j - |cx|] in ElementsOf(cn) && old(IterAt(next, cn, j - |cx|));
        }
      }
    }

    /** safe_list_del: unlink the node and hand its iterators on to its successor. */
    method Del(x: Node, ghost k: nat)
      requires Valid() && 0 < k < |ring| && ring[k] == x
      modifies this, NodeSet(ring), Iters(chains)
      ensures Valid() && ring == DropAt(old(ring), k) && chains == Merged(old(chains), k)
    {
      DelLinks(x, k);
      Reindexed(ring, chains, k);
      MergedDistinct(chains, k);
      ring, chains := DropAt(ring, k), Merged(chains, k);
    }

    method DelLinks(x: Node, ghost k: nat)
      requires Valid() && 0 < k < |ring| && ring[k] == x
      modifies NodeSet(ring), Iters(chains)
      ensures Spliced(ring, chains, k)
    {
      var next := UnlinkNode(x, k);
      label Unlinked:
      PassOn(x, next, k);
      forall c: nat | c < |ring| - 1
        ensures LinkAt(DropAt(ring, k), c)
      {
        assert old@Unlinked(LinkAt(DropAt(ring, k), c));
      }
    }

    method UnlinkNode(x: Node, ghost k: nat) returns (next: Node)
      requires Valid() && 0 < k < |ring| && ring[k] == x
      modifies NodeSet(ring)`next, NodeSet(ring)`prev
      ensures next == ring[Succ(|ring|, k)] && Hung(ring, chains)
      ensures forall c: nat {:trigger LinkAt(DropAt(ring, k), c)} :: c < |ring| - 1 ==> LinkAt(DropAt(ring, k), c)
    {
      forall c: nat | c < |ring|
        ensures LinkAt(ring, c)
      {
        assert RingAt(ring, chains, c);
      }
      assert LinkAt(ring, k);
      next := x.next;
      ListDel(x, ring, k);
      forall c: nat | c < |ring|
        ensures HungAt(ring, chains, c)
      {
        assert old(RingAt(ring, chains, c)) && old(ChainOk(ring[c], chains[c]));
      }
    }

    method PassOn(x: Node, next: Node, ghost k: nat)
      requires |ring| == |chains| && 0 < k < |ring| && ring[k] == x && next == ring[Succ(|ring|, k)]
      requires Distinct(ring) && DistinctIters(chains) && Hung(ring, chains)
      modifies NodeSet(ring)`i, Iters(chains)
      ensures HungAfter(ring, chains, k)
    {
      ghost var m := Succ(|ring|, k);
      assert HungAt(ring, chains, k) && HungAt(ring, chains, m);
      OtherChains(chains, m, k);
      HandOver(x, next, chains[k], chains[m]);
      forall c: nat | c < |ring| && c != k && c != m
        ensures HungAt(ring, chains, c)
      {
        OtherChains(chains, m, c);
        OtherChains(chains, k, c);
        assert old(HungAt(ring, chains, c));
      }
    }

    /** __list_add: link a node in before the p-th one, or before the head after the last. */
    static method ListAdd(x: Node, prev: Node, next: Node, ghost ring: seq<Node>, ghost p: nat)
      requires Distinct(ring) && x !in ring && 1 <= p <= |ring|
      requires prev == ring[p - 1] && next == ring[Succ(|ring|, p - 1)]
      requires forall c: nat {:trigger LinkAt(ring, c)} :: c < |ring| ==> LinkAt(ring, c)
      modifies NodeSet(ring)`next, NodeSet(ring)`prev, x`next, x`prev
      ensures forall c: nat {:trigger LinkAt(InsertAt(ring, p, x), c)} ::
                c < |ring| + 1 ==> LinkAt(InsertAt(ring, p, x), c)
    {
      next.prev := x;
      x.next := next;
      x.prev := prev;
      prev.next := x;
      forall c: nat | c < |ring| + 1
        ensures LinkAt(InsertAt(ring, p, x), c)
      {
        if c != p {
          assert old(LinkAt(ring, if c < p then c else c - 1));
        }
      }
    }

    /** A node without iterators is linked in. */
    method Insert(x: Node, prev: Node, next: Node, ghost p: nat)
      requires Valid() && x !in ring && 1 <= p <= |ring|
      requires prev == ring[p - 1] && next == ring[Succ(|ring|, p - 1)]
      modifies this`ring, this`chains, NodeSet(ring)`next, NodeSet(ring)`prev, x
      ensures Valid() && ring == InsertAt(old(ring), p, x) && chains == InsertAt(old(chains), p, [])
    {
      x.i := null;
      forall c: nat | c < |ring|
        ensures LinkAt(ring, c)
      {
        assert old(RingAt(ring, chains, c));
      }
      ListAdd(x, prev, next, ring, p);
      forall c: nat | c < |ring|
        ensures HungAt(ring, chains, c)
      {
        assert old(RingAt(ring, chains, c)) && old(ChainOk(ring[c], chains[c]));
      }
      HungOneMore(ring, chains, p, x);
      ring, chains := InsertAt(ring, p, x), InsertAt(chains, p, []);
    }

    /** safe_list_add: append a node before the head. */
    method Add(x: Node)
      requires Valid() && x !in ring
      modifies this`ring, this`chains, NodeSet(ring)`next, NodeSet(ring)`prev, x
      ensures Valid() && ring == old(ring) + [x] && chains == old(chains) + [[]]
    {
      assert RingAt(ring, chains, 0);
      Insert(x, head.prev, head, |ring|);
    }

    /** safe_list_add_first: put a node just behind the head. */
    method AddFirst(x: Node)
      requires Valid() && x !in ring
      modifies this`ring, this`chains, NodeSet(ring)`next, NodeSet(ring)`prev, x
      ensures Valid() && ring == InsertAt(old(ring), 1, x) && chains == InsertAt(old(chains), 1, [])
    {
      assert RingAt(ring, chains, 0);
      Insert(x, head, head.next, 1);
    }
  }

  ghost function InsertAt<X>(s: seq<X>, p: nat, x: X): (r: seq<X>)
    requires p <= |s|
    ensures |r| == |s| + 1
  {
    s[..p] + [x] + s[p..]
  }

  lemma HungOneMore(ring: seq<Node>, chains: seq<seq<Iter>>, p: nat, x: Node)
    requires |ring| == |chains| && Hung(ring, chains) && x.i == null && x !in ring && 1 <= p <= |ring|
    requires Distinct(ring) && DistinctIters(chains)
    requires forall c: nat {:trigger LinkAt(InsertAt(ring, p, x), c)} ::
               c < |ring| + 1 ==> LinkAt(InsertAt(ring, p, x), c)
    ensures Distinct(InsertAt(ring, p, x)) && DistinctIters(InsertAt(chains, p, []))
    ensures RingOk(InsertAt(ring, p, x), InsertAt(chains, p, []))
    ensures forall c: nat {:trigger ChainOk(InsertAt(ring, p, x)[c], InsertAt(chains, p, [])[c])} ::
              c < |ring| + 1 ==> ChainOk(InsertAt(ring, p, x)[c], InsertAt(chains, p, [])[c])
  {
    var ring', chains' := InsertAt(ring, p, x), InsertAt(chains, p, []);
    InsertedDistinct(ring, p, x);
    InsertedIters(chains, p);
    forall c: nat | c < |ring'|
      ensures RingAt(ring', chains', c) && ChainOk(ring'[c], chains'[c])
    {
      assert LinkAt(ring', c);
      if c != p {
        assert HungAt(ring, chains, if c < p then c else c - 1);
      }
    }
  }

  lemma InsertedDistinct<X>(s: seq<X>, p: nat, x: X)
    requires Distinct(s) && x !in s && p <= |s|
    ensures Distinct(InsertAt(s, p, x))
  {
    var t := InsertAt(s, p, x);
    forall a, b | 0 <= a < b < |t|
      ensures t[a] != t[b]
    {
      if a != p && b != p {
        assert t[a] == s[if a < p then a else a - 1] && t[b] == s[if b < p then b else b - 1];
      } else {
        assert (if a == p then t[b] else t[a]) in s;
      }
    }
  }

  lemma InsertedIters(chains: seq<seq<Iter>>, p: nat)
    requires DistinctIters(chains) && p <= |chains|
    ensures DistinctIters(InsertAt(chains, p, []))
  {
    var t := InsertAt(chains, p, []);
    assert forall c :: 0 <= c < |t| ==> t[c] == if c == p then [] else chains[if c < p then c else c - 1];
  }
}
