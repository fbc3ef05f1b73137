/** The pointer-linked binary heap: nodes with parent, left and right links, kept
    complete.  The next free place, and the last node, are found from the bits of
    the element count.  `nodes` is the ghost level order of the tree. */
module PointerHeaps {
  import opened Basics

  // ----- order, on the level order of the data

  datatype Compare<!T> = NoCompare | Compare(less: (T, T) -> bool)

  /** The comparison is a strict weak order, as "less than" and "larger than" are. */
  ghost predicate WeakOrder<T(!new)>(less: (T, T) -> bool) {
    && (forall a, b :: less(a, b) ==> !less(b, a))
    && (forall a, b, c :: !less(b, a) && !less(c, b) ==> !less(c, a))
  }

  function Up(i: nat): (p: nat)
    requires i > 0
    ensures p < i && (i == 2 * p + 1 || i == 2 * p + 2)
  {
    (i - 1) / 2
  }

  ghost predicate InOrder<T>(less: (T, T) -> bool, s: seq<T>, i: nat)
    requires 0 < i < |s|
  {
    !less(s[i], s[Up(i)])
  }

  ghost predicate HeapOrdered<T>(less: (T, T) -> bool, s: seq<T>) {
    forall i: nat :: 0 < i < |s| ==> InOrder(less, s, i)
  }

  /** Order holds except around position h, whose children still fit under its parent. */
  ghost predicate OrderedAround<T>(less: (T, T) -> bool, s: seq<T>, h: nat) {
    && (forall i: nat :: 0 < i < |s| && i != h && Up(i) != h ==> InOrder(less, s, i))
    && (forall i: nat :: 0 < i < |s| && Up(i) == h && 0 < h ==> !less(s[i], s[Up(h)]))
  }

  ghost predicate ChildrenInOrder<T>(less: (T, T) -> bool, s: seq<T>, h: nat) {
    forall i: nat :: 0 < i < |s| && Up(i) == h ==> InOrder(less, s, i)
  }

  function Swapped<T>(s: seq<T>, i: nat, j: nat): (r: seq<T>)
    requires i < |s| && j < |s|
    ensures |r| == |s|
  {
    s[i := s[j]][j := s[i]]
  }

  lemma SwappedIsPermutation<T>(s: seq<T>, i: nat, j: nat)
    requires i < |s| && j < |s|
    ensures multiset(Swapped(s, i, j)) == multiset(s)
  {
  }

  lemma OrderedIsOrderedAround<T(!new)>(less: (T, T) -> bool, s: seq<T>, h: nat)
    requires WeakOrder(less) && HeapOrdered(less, s) && h < |s|
    ensures OrderedAround(less, s, h)
  {
    forall i: nat | 0 < i < |s| && Up(i) == h && 0 < h
      ensures !less(s[i], s[Up(h)])
    {
      assert InOrder(less, s, i) && InOrder(less, s, h);
    }
  }

  /** Putting a value into position h keeps the order around it. */
  lemma OrderedAroundAny<T>(less: (T, T) -> bool, s: seq<T>, h: nat, x: T)
    requires OrderedAround(less, s, h) && h < |s|
    ensures OrderedAround(less, s[h := x], h)
  {
    var s' := s[h := x];
    forall i: nat | 0 < i < |s'| && i != h && Up(i) != h
      ensures InOrder(less, s', i)
    {
      assert InOrder(less, s, i);
    }
  }

  lemma SiftUpStep<T(!new)>(less: (T, T) -> bool, s: seq<T>, h: nat)
    requires WeakOrder(less) && 0 < h < |s| && less(s[h], s[Up(h)])
    requires OrderedAround(less, s, h) && ChildrenInOrder(less, s, h)
    ensures OrderedAround(less, Swapped(s, h, Up(h)), Up(h)) && ChildrenInOrder(less, Swapped(s, h, Up(h)), Up(h))
  {
    var p := Up(h);
    var s' := Swapped(s, h, p);
    forall i: nat | 0 < i < |s|
      ensures i != p && Up(i) != p ==> InOrder(less, s', i)
      ensures Up(i) == p ==> InOrder(less, s', i)
      ensures Up(i) == p && 0 < p ==> !less(s'[i], s'[Up(p)])
    {
      if i != h && Up(i) != h {
        assert InOrder(less, s, i);
      }
      if 0 < p {
        assert InOrder(less, s, p);
      }
    }
  }

  lemma SiftDownStep<T(!new)>(less: (T, T) -> bool, s: seq<T>, h: nat, c: nat)
    requires WeakOrder(less) && 0 < c < |s| && Up(c) == h && !less(s[h], s[c])
    requires forall i: nat :: 0 < i < |s| && Up(i) == h ==> !less(s[i], s[c])
    requires OrderedAround(less, s, h)
    ensures OrderedAround(less, Swapped(s, h, c), c) && InOrder(less, Swapped(s, h, c), c)
  {
    var s' := Swapped(s, h, c);
    forall i: nat | 0 < i < |s|
      ensures i != c && Up(i) != c ==> InOrder(less, s', i)
      ensures Up(i) == c ==> !less(s'[i], s'[Up(c)])
    {
      if i != h && Up(i) != h {
        assert InOrder(less, s, i);
      }
    }
  }

  lemma OrderedBelowLast<T>(less: (T, T) -> bool, s: seq<T>, x: T)
    requires HeapOrdered(less, s)
    ensures OrderedAround(less, s + [x], |s|) && ChildrenInOrder(less, s + [x], |s|)
  {
    forall i: nat | 0 < i < |s|
      ensures InOrder(less, s + [x], i)
    {
      assert InOrder(less, s, i);
    }
  }

  lemma OrderedPrefix<T>(less: (T, T) -> bool, s: seq<T>, m: nat)
    requires HeapOrdered(less, s) && m <= |s|
    ensures HeapOrdered(less, s[..m])
  {
    forall i: nat | 0 < i < m
      ensures InOrder(less, s[..m], i)
    {
      assert InOrder(less, s, i);
    }
  }

  lemma OrderedWithoutLast<T(!new)>(less: (T, T) -> bool, s: seq<T>, k: nat, x: T)
    requires WeakOrder(less) && HeapOrdered(less, s) && k < |s| - 1
    ensures OrderedAround(less, s[..|s| - 1][k := x], k)
  {
    OrderedPrefix(less, s, |s| - 1);
    OrderedIsOrderedAround(less, s[..|s| - 1], k);
    OrderedAroundAny(less, s[..|s| - 1], k, x);
  }

  lemma Settled<T>(less: (T, T) -> bool, s: seq<T>, h: nat)
    requires OrderedAround(less, s, h) && ChildrenInOrder(less, s, h)
    requires 0 < h < |s| ==> InOrder(less, s, h)
    ensures HeapOrdered(less, s)
  {
  }

  lemma {:induction false} RootIsLeast<T(!new)>(less: (T, T) -> bool, s: seq<T>, i: nat)
    requires WeakOrder(less) && HeapOrdered(less, s) && i < |s|
    ensures !less(s[i], s[0])
  {
    if i > 0 {
      RootIsLeast(less, s, Up(i));
      assert InOrder(less, s, i);
    }
  }

  // ----- the path to a position

  /** n >> d */
  function Shift(n: nat, d: nat): (r: nat)
    ensures n >= 1 && d >= 1 ==> r < n
  {
    if d == 0 then n else Shift(n, d - 1) / 2
  }

  /** The low d bits of n in reverse: bit d-1 of n is the lowest bit. */
  function ReversedBits(n: nat, d: nat): nat {
    if d == 0 then 0 else Shift(n, d - 1) % 2 + 2 * ReversedBits(n, d - 1)
  }

  /** The loop that turns the element count into a path. */
  method BuildPath(nelts: nat) returns (path: nat, d: nat)
    requires nelts >= 1
    ensures path == ReversedBits(nelts, d) && Shift(nelts, d) == 1
  {
    var n := nelts;
    path, d := 0, 0;
    while n >= 2
      invariant n == Shift(nelts, d) && n >= 1 && path == ReversedBits(nelts, d)
    {
      path, d, n := path * 2 + n % 2, d + 1, n / 2;
    }
  }

  class HeapNode<T> {
    const data: T
    var parent: HeapNode?<T>
    var left: HeapNode?<T>
    var right: HeapNode?<T>

    constructor (data: T)
      ensures this.data == data && parent == null && left == null && right == null
    {
      this.data := data;
      parent, left, right := null, null, null;
    }
  }

  // ----- links as values

  datatype Links<T> = Links(parent: HeapNode?<T>, left: HeapNode?<T>, right: HeapNode?<T>)

  ghost function LinksOf<T>(x: HeapNode<T>): Links<T>
    reads x
  {
    Links(x.parent, x.left, x.right)
  }

  ghost function At<T>(nodes: seq<HeapNode<T>>, i: nat): HeapNode?<T> {
    if i < |nodes| then nodes[i] else null
  }

  /** The links that position i of a complete tree with this level order has. */
  ghost function Place<T>(nodes: seq<HeapNode<T>>, i: nat): Links<T>
    requires i < |nodes|
  {
    Links(if i == 0 then null else nodes[Up(i)], At(nodes, 2 * i + 1), At(nodes, 2 * i + 2))
  }

  /** How the places of a tree change when position c is exchanged with its parent. */
  lemma SwapPlaces<T>(nodes: seq<HeapNode<T>>, c: nat)
    requires 0 < c < |nodes|
    ensures var p := Up(c);
            var pl, cl := Place(nodes, p), Place(nodes, c);
            var nodes' := Swapped(nodes, c, p);
            && Place(nodes', c) == Links(nodes[c], cl.left, cl.right)
            && Place(nodes', p) == (if c == 2 * p + 1 then Links(pl.parent, nodes[p], pl.right)
                                    else Links(pl.parent, pl.left, nodes[p]))
  {
  }

  lemma SwappedDistinct<T>(nodes: seq<HeapNode<T>>, i: nat, j: nat)
    requires Distinct(nodes) && i < |nodes| && j < |nodes|
    ensures Distinct(Swapped(nodes, i, j))
  {
  }

  lemma SwapOtherPlaces<T>(nodes: seq<HeapNode<T>>, c: nat, i: nat)
    requires 0 < c < |nodes| && i < |nodes| && i != c && i != Up(c)
    ensures var p := Up(c);
            var l := Place(nodes, i);
            var l' := Place(Swapped(nodes, c, p), i);
            && l'.parent == (if i > 0 && Up(i) == p then nodes[c]
                             else if i > 0 && Up(i) == c then nodes[p] else l.parent)
            && l'.left == (if p > 0 && i == Up(p) && p == 2 * i + 1 then nodes[c] else l.left)
            && l'.right == (if p > 0 && i == Up(p) && p == 2 * i + 2 then nodes[c] else l.right)
  {
  }

  // ----- the links of all nodes, in level order

  ghost function Wires<T>(nodes: seq<HeapNode<T>>): (w: seq<Links<T>>)
    reads nodes
    ensures |w| == |nodes|
  {
    seq(|nodes|, i requires 0 <= i < |nodes| reads nodes => LinksOf(nodes[i]))
  }

  ghost predicate InPlaceAt<T>(nodes: seq<HeapNode<T>>, w: seq<Links<T>>, i: nat)
    requires i < |nodes| == |w|
  {
    w[i] == Place(nodes, i)
  }

  /** Every node has the links of its place. */
  ghost predicate InPlace<T>(nodes: seq<HeapNode<T>>, w: seq<Links<T>>) {
    && |w| == |nodes|
    && forall i: nat {:trigger InPlaceAt(nodes, w, i)} :: i < |nodes| ==> InPlaceAt(nodes, w, i)
  }

  /** What heap_swap does to the links of node i: node c and its parent are exchanged. */
  ghost predicate ExchangedAt<T>(nodes: seq<HeapNode<T>>, w: seq<Links<T>>, w': seq<Links<T>>, c: nat, i: nat)
    requires 0 < c < |nodes| == |w| == |w'| && i < |nodes|
  {
    var p := Up(c);
    var parent, child, x := nodes[p], nodes[c], nodes[i];
    var pl, cl, l := w[p], w[c], w[i];
    if i == p then w'[i] == Links(child, cl.left, cl.right)
    else if i == c then
      w'[i] == if pl.left == child then Links(pl.parent, parent, pl.right) else Links(pl.parent, pl.left, parent)
    else
      && w'[i].parent == (if x == pl.left || x == pl.right then child
                          else if x == cl.left || x == cl.right then parent else l.parent)
      && w'[i].left == (if x == pl.parent && l.left == parent then child else l.left)
      && w'[i].right == (if x == pl.parent && l.left != parent && l.right == parent then child else l.right)
  }

  /** Some of a node, its child and their neighbours coincide, or are not linked to each other. */
  ghost predicate Aliased<T>(parent: HeapNode<T>, pl: Links<T>, child: HeapNode<T>, cl: Links<T>) {
    || cl.parent != parent || (pl.left != child && pl.right != child)
    || parent == child || pl.left == pl.right
    || pl.parent in {parent, child} || pl.left == parent || pl.right == parent
    || cl.left in {parent, child} || cl.right in {parent, child}
    || (pl.parent != null && pl.parent in {pl.left, pl.right})
    || (cl.left != null && cl.left in {pl.parent, pl.left, pl.right})
    || (cl.right != null && cl.right in {pl.parent, pl.left, pl.right})
  }

  lemma PlacesDoNotAlias<T>(nodes: seq<HeapNode<T>>, c: nat)
    requires Distinct(nodes) && 0 < c < |nodes|
    ensures !Aliased(nodes[Up(c)], Place(nodes, Up(c)), nodes[c], Place(nodes, c))
  {
  }

  /** Which positions the links of a node and of its parent lead to. */
  lemma NeighbourPlaces<T>(nodes: seq<HeapNode<T>>, c: nat, i: nat)
    requires Distinct(nodes) && 0 < c < |nodes| && i < |nodes| && i != c && i != Up(c)
    ensures var p := Up(c);
            var pl, cl, l := Place(nodes, p), Place(nodes, c), Place(nodes, i);
            && (nodes[i] == pl.left || nodes[i] == pl.right <==> i > 0 && Up(i) == p)
            && (nodes[i] == cl.left || nodes[i] == cl.right <==> i > 0 && Up(i) == c)
            && (nodes[i] == pl.parent <==> p > 0 && i == Up(p))
            && (l.left == nodes[p] <==> p == 2 * i + 1)
            && (l.right == nodes[p] <==> p == 2 * i + 2)
  {
  }

  lemma SwapRewiresAt<T>(nodes: seq<HeapNode<T>>, w: seq<Links<T>>, w': seq<Links<T>>, c: nat, i: nat)
    requires Distinct(nodes) && InPlace(nodes, w) && |w'| == |w| && 0 < c < |nodes| && i < |nodes|
    requires ExchangedAt(nodes, w, w', c, i)
    ensures w'[i] == Place(Swapped(nodes, c, Up(c)), if i == c then Up(c) else if i == Up(c) then c else i)
  {
    var p := Up(c);
    assert InPlaceAt(nodes, w, p) && InPlaceAt(nodes, w, c) && InPlaceAt(nodes, w, i);
    if i == p || i == c {
      SwapPlaces(nodes, c);
    } else {
      SwapOtherPlaces(nodes, c, i);
      NeighbourPlaces(nodes, c, i);
    }
  }

  /** After heap_swap every node has the links of its new place. */
  lemma SwapRewires<T>(nodes: seq<HeapNode<T>>, w: seq<Links<T>>, w': seq<Links<T>>, c: nat)
    requires Distinct(nodes) && InPlace(nodes, w) && |w'| == |w| && 0 < c < |nodes|
    requires forall i: nat {:trigger ExchangedAt(nodes, w, w', c, i)} :: i < |nodes| ==> ExchangedAt(nodes, w, w', c, i)
    ensures InPlace(Swapped(nodes, c, Up(c)), Swapped(w', c, Up(c)))
  {
    var p := Up(c);
    forall i: nat | i < |nodes|
      ensures InPlaceAt(Swapped(nodes, c, p), Swapped(w', c, p), i)
    {
      var j := if i == c then p else if i == p then c else i;
      assert ExchangedAt(nodes, w, w', c, j);
      SwapRewiresAt(nodes, w, w', c, j);
    }
  }

  ghost function NodeSet<T>(nodes: seq<HeapNode<T>>): set<HeapNode<T>> {
    set x | x in nodes
  }

  lemma SwappedNodeSet<T>(nodes: seq<HeapNode<T>>, i: nat, j: nat)
    requires i < |nodes| && j < |nodes|
    ensures NodeSet(Swapped(nodes, i, j)) == NodeSet(nodes)
  {
    var nodes' := Swapped(nodes, i, j);
    forall x | x in nodes
      ensures x in nodes'
    {
      var k :| 0 <= k < |nodes| && nodes[k] == x;
      assert nodes'[if k == i then j else if k == j then i else k] == x;
    }
  }

  /** How the places change when a node is added at the end of the level order. */
  lemma AppendedPlace<T>(nodes: seq<HeapNode<T>>, node: HeapNode<T>, i: nat)
    requires i <= |nodes|
    ensures var n := |nodes| + 1;
            var l' := Place(nodes + [node], i);
            if i == |nodes| then l' == Links(if i == 0 then null else nodes[n / 2 - 1], null, null)
            else if i == n / 2 - 1 then l' == WithChild(Place(nodes, i), n % 2 == 1, node)
            else l' == Place(nodes, i)
  {
  }

  ghost function WithChild<T>(l: Links<T>, onRight: bool, child: HeapNode?<T>): Links<T> {
    if onRight then l.(right := child) else l.(left := child)
  }

  /** The links after a node has been linked at the next free place. */
  ghost function AppendedWires<T>(nodes: seq<HeapNode<T>>, w: seq<Links<T>>, node: HeapNode<T>): seq<Links<T>>
    requires |w| == |nodes|
  {
    var n := |nodes| + 1;
    if n == 1 then [Links(null, null, null)]
    else
      var at := n / 2 - 1;
      w[at := WithChild(w[at], n % 2 == 1, node)] + [Links(nodes[at], null, null)]
  }

  lemma AppendRewires<T>(nodes: seq<HeapNode<T>>, w: seq<Links<T>>, node: HeapNode<T>)
    requires InPlace(nodes, w)
    ensures InPlace(nodes + [node], AppendedWires(nodes, w, node))
  {
    var nodes' := nodes + [node];
    forall i: nat | i < |nodes'|
      ensures InPlaceAt(nodes', AppendedWires(nodes, w, node), i)
    {
      AppendedPlace(nodes, node, i);
      if i < |nodes| {
        assert InPlaceAt(nodes, w, i);
      }
    }
  }

  /** The links after the last node has been cut off its parent. */
  ghost function CutWires<T>(nodes: seq<HeapNode<T>>, w: seq<Links<T>>): seq<Links<T>>
    requires |w| == |nodes| > 1
  {
    var n := |nodes|;
    w[n / 2 - 1 := WithChild(w[n / 2 - 1], n % 2 == 1, null)][..n - 1]
  }

  lemma LastPlace<T>(nodes: seq<HeapNode<T>>, w: seq<Links<T>>)
    requires InPlace(nodes, w) && nodes != []
    ensures var n := |nodes|;
            if n == 1 then w[0] == Links(null, null, null)
            else
              && w[n - 1] == Links(nodes[n / 2 - 1], null, null)
              && (if n % 2 == 1 then w[n / 2 - 1].right else w[n / 2 - 1].left) == nodes[n - 1]
  {
    var n := |nodes|;
    assert InPlaceAt(nodes, w, n - 1) && InPlaceAt(nodes, w, if n == 1 then 0 else n / 2 - 1);
  }

  lemma CutRewires<T>(nodes: seq<HeapNode<T>>, w: seq<Links<T>>)
    requires InPlace(nodes, w) && |nodes| > 1
    ensures InPlace(nodes[..|nodes| - 1], CutWires(nodes, w))
  {
    var n := |nodes|;
    var init, last := nodes[..n - 1], nodes[n - 1];
    assert nodes == init + [last];
    forall i: nat | i < n - 1
      ensures InPlaceAt(init, CutWires(nodes, w), i)
    {
      assert InPlaceAt(nodes, w, i);
      AppendedPlace(init, last, i);
    }
  }

  /** What heap_replace does to the links of node i: node k is replaced by r. */
  ghost predicate ReplacedAt<T>(nodes: seq<HeapNode<T>>, w: seq<Links<T>>, w': seq<Links<T>>, k: nat, r: HeapNode<T>,
                                i: nat)
    requires k < |nodes| == |w| == |w'| && i < |nodes|
  {
    var s, x, sl, l := nodes[k], nodes[i], w[k], w[i];
    if i == k then w'[i] == sl
    else
      && w'[i].parent == (if x == sl.left || x == sl.right then r else l.parent)
      && w'[i].left == (if x == sl.parent && l.left == s then r else l.left)
      && w'[i].right == (if x == sl.parent && l.left != s && l.right == s then r else l.right)
  }

  lemma PlaceNeighbours<T>(nodes: seq<HeapNode<T>>, k: nat)
    requires Distinct(nodes) && k < |nodes|
    ensures var l := Place(nodes, k);
            && l.parent != nodes[k] && l.left != nodes[k] && l.right != nodes[k]
            && (l.parent != null ==> l.parent in nodes && l.parent !in {l.left, l.right})
            && (l.left != null ==> l.left in nodes) && (l.right != null ==> l.right in nodes)
  {
  }

  lemma ReplacedPlace<T>(nodes: seq<HeapNode<T>>, k: nat, r: HeapNode<T>, i: nat)
    requires Distinct(nodes) && k < |nodes| && i < |nodes|
    ensures var sl, l, l' := Place(nodes, k), Place(nodes, i), Place(nodes[k := r], i);
            if i == k then l' == l
            else
              && l'.parent == (if nodes[i] == sl.left || nodes[i] == sl.right then r else l.parent)
              && l'.left == (if nodes[i] == sl.parent && l.left == nodes[k] then r else l.left)
              && l'.right == (if nodes[i] == sl.parent && l.left != nodes[k] && l.right == nodes[k] then r else l.right)
  {
  }

  lemma ReplacedDistinct<T>(nodes: seq<HeapNode<T>>, k: nat, r: HeapNode<T>)
    requires Distinct(nodes) && k < |nodes| && r !in nodes
    ensures Distinct(nodes[k := r])
  {
  }

  /** The level order without node k: the last node takes its place unless it is the one dropped. */
  ghost function Dropped<T>(nodes: seq<HeapNode<T>>, k: nat): (r: seq<HeapNode<T>>)
    requires k < |nodes|
    ensures |r| == |nodes| - 1
  {
    var init := nodes[..|nodes| - 1];
    if k == |nodes| - 1 then init else init[k := nodes[|nodes| - 1]]
  }

  lemma DroppedNodes<T>(nodes: seq<HeapNode<T>>, k: nat)
    requires k < |nodes|
    ensures multiset(Dropped(nodes, k)) == multiset(nodes) - multiset{nodes[k]}
  {
    var init, last := nodes[..|nodes| - 1], nodes[|nodes| - 1];
    assert nodes == init + [last];
  }

  lemma DroppedSubset<T>(nodes: seq<HeapNode<T>>, k: nat)
    requires Distinct(nodes) && k < |nodes|
    ensures NodeSet(Dropped(nodes, k)) <= NodeSet(nodes) && nodes[k] !in Dropped(nodes, k)
  {
    var r := Dropped(nodes, k);
    assert forall i :: 0 <= i < |r| ==> r[i] == nodes[if i == k then |nodes| - 1 else i];
  }

  lemma ReplaceRewires<T>(nodes: seq<HeapNode<T>>, w: seq<Links<T>>, w': seq<Links<T>>, k: nat, r: HeapNode<T>)
    requires Distinct(nodes) && InPlace(nodes, w) && |w'| == |w| && k < |nodes|
    requires forall i: nat {:trigger ReplacedAt(nodes, w, w', k, r, i)} ::
               i < |nodes| ==> ReplacedAt(nodes, w, w', k, r, i)
    ensures InPlace(nodes[k := r], w')
  {
    var nodes' := nodes[k := r];
    assert InPlaceAt(nodes, w, k);
    forall i: nat | i < |nodes|
      ensures InPlaceAt(nodes', w', i)
    {
      assert InPlaceAt(nodes, w, i) && ReplacedAt(nodes, w, w', k, r, i);
      ReplacedPlace(nodes, k, r, i);
    }
  }

  ghost function Data<T>(nodes: seq<HeapNode<T>>): (s: seq<T>)
    ensures |s| == |nodes| && forall i :: 0 <= i < |s| ==> s[i] == nodes[i].data
  {
    seq(|nodes|, i requires 0 <= i < |nodes| => nodes[i].data)
  }

  lemma SwappedData<T>(nodes: seq<HeapNode<T>>, i: nat, j: nat)
    requires i < |nodes| && j < |nodes|
    ensures Data(Swapped(nodes, i, j)) == Swapped(Data(nodes), i, j)
  {
  }

  class Heap<T(!new)> {
    var root: HeapNode?<T>
    var nelts: int
    const compare: Compare<T>
    ghost var nodes: seq<HeapNode<T>>

    /** A complete tree with consistent links, whose size is nelts. */
    ghost predicate Complete()
      reads this, nodes
    {
      && Distinct(nodes) && |nodes| == nelts && root == At(nodes, 0)
      && InPlace(nodes, Wires(nodes))
    }

    ghost predicate Valid()
      reads this, nodes
    {
      && Complete()
      && (compare.Compare? ==> WeakOrder(compare.less) && HeapOrdered(compare.less, Data(nodes)))
    }

    constructor (compare: Compare<T>)
      requires compare.Compare? ==> WeakOrder(compare.less)
      ensures Valid() && nodes == [] && this.compare == compare
    {
      root, nelts, nodes := null, 0, [];
      this.compare := compare;
    }

    static ghost function Opt(x: HeapNode?<T>): set<HeapNode<T>> {
      if x == null then {} else {x}
    }

    /** `if (x) x->parent = p;` */
    static method Adopt(x: HeapNode?<T>, p: HeapNode<T>)
      modifies (if x == null then {} else {x})`parent
      ensures x != null ==> x.parent == p
      ensures forall y: HeapNode<T> {:trigger y.parent} :: old(allocated(y)) && y != x ==> y.parent == old(y.parent)
    {
      if x != null {
        x.parent := p;
      }
    }

    /** Make `r` the child of `above` (or the root) in the place of `s`. */
    method Hang(above: HeapNode?<T>, s: HeapNode<T>, r: HeapNode<T>)
      modifies this`root, (if above == null then {} else {above})`left, (if above == null then {} else {above})`right
      ensures root == if above == null then r else old(root)
      ensures above != null ==> above.left == (if old(above.left) == s then r else old(above.left))
      ensures above != null ==>
                above.right == (if old(above.left) != s && old(above.right) == s then r else old(above.right))
      ensures forall y: HeapNode<T> {:trigger y.left} {:trigger y.right} ::
                old(allocated(y)) && y != above ==> y.left == old(y.left) && y.right == old(y.right)
    {
      if above == null {
        root := r;
      } else if above.left == s {
        above.left := r;
      } else if above.right == s {
        above.right := r;
      }
    }

    /** `child` gets `parent` and its own sibling as children. */
    static method Below(parent: HeapNode<T>, child: HeapNode<T>) returns (sibling: HeapNode?<T>)
      requires parent != child
      modifies child`left, child`right
      ensures sibling == if parent.left == child then parent.right else parent.left
      ensures child.left == if parent.left == child then parent else parent.left
      ensures child.right == if parent.left == child then parent.right else parent
    {
      if parent.left == child {
        sibling := parent.right;
        child.left, child.right := parent, sibling;
      } else {
        sibling := parent.left;
        child.left, child.right := sibling, parent;
      }
    }

    /** The pointer updates of heap_swap below the place of `parent`, on any nodes that do not alias. */
    static method Cross(parent: HeapNode<T>, child: HeapNode<T>)
      requires !Aliased(parent, LinksOf(parent), child, LinksOf(child))
      modifies parent, child
      modifies Opt(parent.left)`parent, Opt(parent.right)`parent, Opt(child.left)`parent, Opt(child.right)`parent
      ensures LinksOf(parent) == Links(child, old(child.left), old(child.right))
      ensures LinksOf(child) == old(if parent.left == child then Links(parent.parent, parent, parent.right)
                                    else Links(parent.parent, parent.left, parent))
      ensures forall x: HeapNode<T> {:trigger x.parent} :: old(allocated(x)) && x != parent && x != child ==>
                x.parent == old(if x == parent.left || x == parent.right then child
                                else if x == child.left || x == child.right then parent else x.parent)
    {
      var pparent, lchild, rchild := parent.parent, child.left, child.right;
      Adopt(lchild, parent);
      Adopt(rchild, parent);
      child.parent := pparent;
      var sibling := Below(parent, child);
      Adopt(sibling, child);
      parent.parent, parent.left, parent.right := child, lchild, rchild;
    }

    /** The pointer updates of heap_swap, on any nodes that do not alias. */
    method Relink(parent: HeapNode<T>, child: HeapNode<T>)
      requires !Aliased(parent, LinksOf(parent), child, LinksOf(child))
      modifies this`root, parent, child, Opt(parent.parent)`left, Opt(parent.parent)`right
      modifies Opt(parent.left)`parent, Opt(parent.right)`parent, Opt(child.left)`parent, Opt(child.right)`parent
      ensures root == if old(parent.parent) == null then child else old(root)
      ensures LinksOf(parent) == Links(child, old(child.left), old(child.right))
      ensures LinksOf(child) == old(if parent.left == child then Links(parent.parent, parent, parent.right)
                                    else Links(parent.parent, parent.left, parent))
      ensures forall x: HeapNode<T> {:trigger x.parent} :: old(allocated(x)) && x != parent && x != child ==>
                x.parent == old(if x == parent.left || x == parent.right then child
                                else if x == child.left || x == child.right then parent else x.parent)
      ensures forall x: HeapNode<T> {:trigger x.left} :: old(allocated(x)) && x != parent && x != child ==>
                x.left == old(if x == parent.parent && x.left == parent then child else x.left)
      ensures forall x: HeapNode<T> {:trigger x.right} :: old(allocated(x)) && x != parent && x != child ==>
                x.right == old(if x == parent.parent && x.left != parent && x.right == parent then child else x.right)
    {
      Hang(parent.parent, parent, child);
      Cross(parent, child);
    }

    method Exchange(parent: HeapNode<T>, child: HeapNode<T>, ghost c: nat)
      requires Complete() && 0 < c < |nodes| && nodes[c] == child && nodes[Up(c)] == parent
      modifies this`root, NodeSet(nodes)
      ensures forall i: nat {:trigger ExchangedAt(nodes, old(Wires(nodes)), Wires(nodes), c, i)} ::
                i < |nodes| ==> ExchangedAt(nodes, old(Wires(nodes)), Wires(nodes), c, i)
      ensures root == if Up(c) == 0 then child else old(root)
    {
      assert InPlaceAt(nodes, Wires(nodes), c) && InPlaceAt(nodes, Wires(nodes), Up(c));
      PlacesDoNotAlias(nodes, c);
      Relink(parent, child);
    }

    /** heap_swap: exchange a node with its parent by relinking; data stays in the nodes. */
    method Swap(parent: HeapNode<T>, child: HeapNode<T>, ghost c: nat)
      requires Complete() && 0 < c < |nodes| && nodes[c] == child && nodes[Up(c)] == parent
      modifies this`root, this`nodes, NodeSet(nodes)
      ensures Complete() && nodes == Swapped(old(nodes), c, Up(c)) && NodeSet(nodes) == NodeSet(old(nodes))
    {
      ghost var w := Wires(nodes);
      Exchange(parent, child, c);
      SwapRewires(nodes, w, Wires(nodes), c);
      SwappedNodeSet(nodes, c, Up(c));
      SwappedDistinct(nodes, c, Up(c));
      assert Wires(Swapped(nodes, c, Up(c))) == Swapped(Wires(nodes), c, Up(c));
      nodes := Swapped(nodes, c, Up(c));
    }

    method Child(x: HeapNode<T>, right: bool, ghost i: nat) returns (c: HeapNode?<T>)
      requires InPlace(nodes, Wires(nodes)) && i < |nodes| && nodes[i] == x
      ensures c == At(nodes, if right then 2 * i + 2 else 2 * i + 1)
    {
      assert InPlaceAt(nodes, Wires(nodes), i);
      c := if right then x.right else x.left;
    }

    /** Follow the path from the root; what is left of it is the last turn to take. */
    method Walk(path0: nat, d0: nat, ghost n: nat) returns (parent: HeapNode?<T>, path: nat)
      requires InPlace(nodes, Wires(nodes)) && root == At(nodes, 0)
      requires n >= 1 && n / 2 <= |nodes| && path0 == ReversedBits(n, d0) && Shift(n, d0) == 1
      ensures if n == 1 then parent == root && path == 0 else parent == nodes[n / 2 - 1] && path % 2 == n % 2
    {
      parent, path := root, path0;
      var d := d0;
      if n == 1 {
        OnlyShift(d);
      }
      ghost var at: nat := 0;
      while d > 1
        invariant n == 1 ==> d == 0
        invariant path == ReversedBits(n, d) && (d <= 1 && n == 1 ==> parent == root)
        invariant n > 1 ==> d >= 1 && at + 1 == Shift(n, d) <= n / 2 && parent == nodes[at]
      {
        TurnAt(n, d);
        parent := Child(parent, path % 2 == 1, at);
        at := 2 * at + 1 + path % 2;
        d, path := d - 1, path / 2;
      }
    }

    /** Link a new node at the next free place. */
    method Attach(node: HeapNode<T>)
      requires InPlace(nodes, Wires(nodes)) && root == At(nodes, 0) && Distinct(nodes) && nelts == |nodes| + 1
      requires node !in nodes && node.left == null && node.right == null
      modifies this`root, this`nodes, NodeSet(nodes), node
      ensures Complete() && nodes == old(nodes) + [node]
    {
      AttachLinks(node);
      nodes := nodes + [node];
    }

    method AttachLinks(node: HeapNode<T>)
      requires InPlace(nodes, Wires(nodes)) && root == At(nodes, 0) && Distinct(nodes) && nelts == |nodes| + 1
      requires node !in nodes && node.left == null && node.right == null
      modifies this`root, NodeSet(nodes), node
      ensures InPlace(nodes + [node], Wires(nodes + [node])) && root == At(nodes + [node], 0)
    {
      var path, d := BuildPath(nelts);
      var parent;
      parent, path := Walk(path, d, nelts);
      AppendRewires(nodes, Wires(nodes), node);
      AttachBelow(node, parent, path);
    }

    method AttachBelow(node: HeapNode<T>, parent: HeapNode?<T>, path: nat)
      requires node !in nodes && node.left == null && node.right == null && Distinct(nodes)
      requires if nodes == [] then parent == null
               else parent == nodes[(|nodes| + 1) / 2 - 1] && path % 2 == (|nodes| + 1) % 2
      modifies this`root, NodeSet(nodes), node
      ensures root == if parent == null then node else old(root)
      ensures Wires(nodes + [node]) == AppendedWires(nodes, old(Wires(nodes)), node)
    {
      node.parent := parent;
      if parent == null {
        root := node;
      } else if path % 2 == 1 {
        parent.right := node;
      } else {
        parent.left := node;
      }
    }

    /** Sift a node up while it precedes its parent. */
    method SiftUp(node: HeapNode<T>, ghost i0: nat)
      requires Complete() && i0 < |nodes| && nodes[i0] == node
      requires compare.Compare? && WeakOrder(compare.less)
      requires OrderedAround(compare.less, Data(nodes), i0) && ChildrenInOrder(compare.less, Data(nodes), i0)
      modifies this`root, this`nodes, NodeSet(nodes)
      ensures Valid() && multiset(nodes) == old(multiset(nodes)) && NodeSet(nodes) == old(NodeSet(nodes))
    {
      ghost var i: nat := i0;
      assert InPlaceAt(nodes, Wires(nodes), i);
      while node.parent != null && compare.less(node.data, node.parent.data)
        invariant multiset(nodes) == old(multiset(nodes)) && NodeSet(nodes) == old(NodeSet(nodes))
        invariant Complete() && i < |nodes| && nodes[i] == node && node.parent == Place(nodes, i).parent
        invariant OrderedAround(compare.less, Data(nodes), i) && ChildrenInOrder(compare.less, Data(nodes), i)
        decreases i
      {
        SiftUpStep(compare.less, Data(nodes), i);
        SwappedData(nodes, i, Up(i));
        SwappedIsPermutation(nodes, i, Up(i));
        Swap(node.parent, node, i);
        i := Up(i);
        assert InPlaceAt(nodes, Wires(nodes), i);
      }
      Settled(compare.less, Data(nodes), i);
    }

    /** heap_insert: link the node at the next free place and sift it up. */
    method Insert(node: HeapNode<T>)
      requires Valid() && node !in nodes && node.left == null && node.right == null
      modifies this, NodeSet(nodes), node
      ensures Valid() && multiset(nodes) == old(multiset(nodes)) + multiset{node}
    {
      nelts := nelts + 1;
      Attach(node);
      if compare.Compare? {
        OrderedBelowLast(compare.less, Data(old(nodes)), node.data);
        assert Data(nodes) == Data(old(nodes)) + [node.data];
        SiftUp(node, |nodes| - 1);
      }
    }

    /** Sift a node down below its least child; ties move it down, too. */
    method SiftDown(v: HeapNode<T>, ghost i0: nat) returns (ghost i: nat)
      requires Complete() && i0 < |nodes| && nodes[i0] == v
      requires compare.Compare? && WeakOrder(compare.less) && OrderedAround(compare.less, Data(nodes), i0)
      modifies this`root, this`nodes, NodeSet(nodes)
      ensures Complete() && multiset(nodes) == old(multiset(nodes)) && NodeSet(nodes) == old(NodeSet(nodes))
      ensures i < |nodes| && nodes[i] == v
      ensures OrderedAround(compare.less, Data(nodes), i) && ChildrenInOrder(compare.less, Data(nodes), i)
    {
      i := i0;
      var moved := true;
      while moved
        invariant multiset(nodes) == old(multiset(nodes)) && NodeSet(nodes) == old(NodeSet(nodes))
        invariant |nodes| == old(|nodes|)
        invariant Complete() && i < |nodes| && nodes[i] == v && OrderedAround(compare.less, Data(nodes), i)
        invariant !moved ==> ChildrenInOrder(compare.less, Data(nodes), i)
        decreases moved, |nodes| - i
      {
        moved, i := SiftDownOnce(v, i);
      }
    }

    method SiftDownOnce(v: HeapNode<T>, ghost i: nat) returns (moved: bool, ghost e: nat)
      requires Complete() && i < |nodes| && nodes[i] == v
      requires compare.Compare? && WeakOrder(compare.less) && OrderedAround(compare.less, Data(nodes), i)
      modifies this`root, this`nodes, NodeSet(nodes)
      ensures Complete() && multiset(nodes) == old(multiset(nodes)) && NodeSet(nodes) == old(NodeSet(nodes))
      ensures |nodes| == old(|nodes|)
      ensures e < |nodes| && nodes[e] == v && OrderedAround(compare.less, Data(nodes), e)
      ensures if moved then e > i else e == i && ChildrenInOrder(compare.less, Data(nodes), i)
    {
      var est;
      est, e := Least(v, i);
      moved := est != v;
      if moved {
        SiftDownStep(compare.less, Data(nodes), i, e);
        SwappedData(nodes, e, i);
        SwappedIsPermutation(nodes, e, i);
        assert Swapped(Data(nodes), e, i) == Swapped(Data(nodes), i, e);
        Swap(v, est, e);
      }
    }

    /** The node itself if it precedes both children, else a child that neither the node nor the sibling precedes. */
    method Least(v: HeapNode<T>, ghost i: nat) returns (est: HeapNode<T>, ghost e: nat)
      requires Complete() && i < |nodes| && nodes[i] == v
      requires compare.Compare? && WeakOrder(compare.less)
      ensures e < |nodes| && nodes[e] == est
      ensures est == v ==> e == i && ChildrenInOrder(compare.less, Data(nodes), i)
      ensures est != v ==> 0 < e && Up(e) == i && !compare.less(v.data, est.data)
      ensures est != v ==> forall j: nat :: 0 < j < |nodes| && Up(j) == i ==> !compare.less(Data(nodes)[j], est.data)
    {
      assert InPlaceAt(nodes, Wires(nodes), i);
      est, e := v, i;
      if v.left != null && !compare.less(est.data, v.left.data) {
        est, e := v.left, 2 * i + 1;
      }
      if v.right != null && !compare.less(est.data, v.right.data) {
        est, e := v.right, 2 * i + 2;
      }
    }

    /** Find the last node from the bits of the count and cut it off its parent.
        In a heap of one node there is nothing below the root to cut off. */
    method DetachLast(n: nat) returns (last: HeapNode?<T>)
      requires InPlace(nodes, Wires(nodes)) && root == At(nodes, 0) && Distinct(nodes) && n == |nodes| >= 1
      modifies NodeSet(nodes)
      ensures last == if n == 1 then null else nodes[n - 1]
      ensures n == 1 ==> LinksOf(nodes[0]) == Links(null, null, null)
      ensures n > 1 ==> InPlace(nodes[..n - 1], Wires(nodes[..n - 1]))
      ensures n > 1 ==> LinksOf(nodes[n - 1]) == Links(nodes[n / 2 - 1], null, null)
    {
      var parent, right := ParentOfLast(n);
      LastPlace(nodes, Wires(nodes));
      if n > 1 {
        CutRewires(nodes, Wires(nodes));
        assert LinksOf(nodes[n - 1]) == Links(nodes[n / 2 - 1], null, null);
      }
      assert (if right then parent.right else parent.left) == if n == 1 then null else nodes[n - 1];
      last := CutBelow(parent, right, n);
    }

    method ParentOfLast(n: nat) returns (parent: HeapNode<T>, right: bool)
      requires InPlace(nodes, Wires(nodes)) && root == At(nodes, 0) && n == |nodes| >= 1
      ensures if n == 1 then parent == nodes[0] && !right else parent == nodes[n / 2 - 1] && right == (n % 2 == 1)
    {
      var path, d := BuildPath(n);
      parent, path := Walk(path, d, n);
      right := path % 2 == 1;
    }

    method CutBelow(parent: HeapNode<T>, right: bool, ghost n: nat) returns (last: HeapNode?<T>)
      requires n == |nodes| >= 1 && Distinct(nodes) && parent == nodes[if n == 1 then 0 else n / 2 - 1]
      requires n > 1 ==> right == (n % 2 == 1)
      modifies NodeSet(nodes)
      ensures last == if right then old(parent.right) else old(parent.left)
      ensures n > 1 ==> Wires(nodes[..n - 1]) == CutWires(nodes, old(Wires(nodes)))
      ensures n > 1 ==> LinksOf(nodes[n - 1]) == old(LinksOf(nodes[n - 1]))
      ensures n == 1 && !right ==> LinksOf(nodes[0]) == old(LinksOf(nodes[0])).(left := null)
    {
      last := Cut(parent, right);
    }

    method Cut(parent: HeapNode<T>, right: bool) returns (last: HeapNode?<T>)
      modifies parent`left, parent`right
      ensures last == if right then old(parent.right) else old(parent.left)
      ensures LinksOf(parent) == if right then old(LinksOf(parent)).(right := null)
                                 else old(LinksOf(parent)).(left := null)
    {
      if right {
        last := parent.right;
        parent.right := null;
      } else {
        last := parent.left;
        parent.left := null;
      }
    }

    /** heap_replace: r takes over the links of s; the neighbours of s now link to r. */
    method Replace(s: HeapNode<T>, r: HeapNode<T>)
      requires s.parent != s && s.left != s && s.right != s
      requires s != r ==> r !in {s.parent, s.left, s.right}
      requires s.parent != null ==> s.parent !in {s.left, s.right}
      modifies this`root, r
      modifies (if s.parent == null then {} else {s.parent})`left, (if s.parent == null then {} else {s.parent})`right
      modifies (if s.left == null then {} else {s.left})`parent, (if s.right == null then {} else {s.right})`parent
      ensures root == if old(s.parent) == null then r else old(root)
      ensures LinksOf(r) == old(LinksOf(s))
      ensures forall x: HeapNode<T> {:trigger x.parent} :: old(allocated(x)) && x != r ==>
                x.parent == old(if x == s.left || x == s.right then r else x.parent)
      ensures forall x: HeapNode<T> {:trigger x.left} :: old(allocated(x)) && x != r ==>
                x.left == old(if x == s.parent && x.left == s then r else x.left)
      ensures forall x: HeapNode<T> {:trigger x.right} :: old(allocated(x)) && x != r ==>
                x.right == old(if x == s.parent && x.left != s && x.right == s then r else x.right)
    {
      Hang(s.parent, s, r);
      Adopt(s.left, r);
      Adopt(s.right, r);
      r.parent, r.left, r.right := s.parent, s.left, s.right;
    }

    method ReplaceAt(s: HeapNode<T>, r: HeapNode<T>, ghost k: nat)
      requires Complete() && k < |nodes| && nodes[k] == s && r !in nodes
      modifies this`root, NodeSet(nodes), r
      ensures forall i: nat {:trigger ReplacedAt(nodes, old(Wires(nodes)), Wires(nodes[k := r]), k, r, i)} ::
                i < |nodes| ==> ReplacedAt(nodes, old(Wires(nodes)), Wires(nodes[k := r]), k, r, i)
      ensures root == At(nodes[k := r], 0)
    {
      assert InPlaceAt(nodes, Wires(nodes), k);
      PlaceNeighbours(nodes, k);
      Replace(s, r);
    }

    /** Put `last`, just cut off, into the place of `node`; when they are the same node nothing moves. */
    method Refill(node: HeapNode<T>, last: HeapNode<T>, ghost k: nat)
      requires Complete() && last !in nodes
      requires if node == last
               then |nodes| >= 1 && LinksOf(last) == Links(nodes[(|nodes| + 1) / 2 - 1], null, null) && k == 0
               else k < |nodes| && nodes[k] == node
      modifies this`root, this`nodes, NodeSet(nodes), node, last
      ensures Complete() && LinksOf(node) == Links(null, null, null)
      ensures nodes == if node == last then old(nodes) else old(nodes)[k := last]
    {
      RefillLinks(node, last, k);
      if node != last {
        ReplacedDistinct(nodes, k, last);
        nodes := nodes[k := last];
      }
    }

    method RefillLinks(node: HeapNode<T>, last: HeapNode<T>, ghost k: nat)
      requires Complete() && last !in nodes
      requires if node == last
               then |nodes| >= 1 && LinksOf(last) == Links(nodes[(|nodes| + 1) / 2 - 1], null, null) && k == 0
               else k < |nodes| && nodes[k] == node
      modifies this`root, NodeSet(nodes), node, last
      ensures LinksOf(node) == Links(null, null, null)
      ensures var nodes' := if node == last then nodes else nodes[k := last];
              InPlace(nodes', Wires(nodes')) && root == At(nodes', 0)
    {
      ghost var w := Wires(nodes);
      if node == last {
        ReplaceDetached(last);
        assert Wires(nodes) == w;
      } else {
        ReplaceAt(node, last, k);
        ReplaceRewires(nodes, w, Wires(nodes[k := last]), k, last);
      }
      ghost var nodes' := if node == last then nodes else nodes[k := last];
      w := Wires(nodes');
      node.parent, node.left, node.right := null, null, null;
      assert Wires(nodes') == w;
    }

    /** heap_replace of a node by itself after it has been cut off: no link of the tree changes. */
    method ReplaceDetached(last: HeapNode<T>)
      requires Complete() && last !in nodes && nodes != []
      requires LinksOf(last) == Links(nodes[(|nodes| + 1) / 2 - 1], null, null)
      modifies this`root, NodeSet(nodes), last
      ensures Wires(nodes) == old(Wires(nodes)) && root == old(root)
    {
      ghost var at := (|nodes| + 1) / 2 - 1;
      assert InPlaceAt(nodes, Wires(nodes), at);
      PlaceNeighbours(nodes, at);
      Replace(last, last);
    }

    /** Take `node` out of the tree and put the last node into its place. */
    method TakeOut(node: HeapNode<T>, ghost k: nat) returns (last: HeapNode?<T>)
      requires Complete() && k < |nodes| && nodes[k] == node
      modifies this, NodeSet(nodes)
      ensures Complete() && nodes == Dropped(old(nodes), k) && LinksOf(node) == Links(null, null, null)
      ensures last == if |old(nodes)| == 1 then null else old(nodes)[|old(nodes)| - 1]
    {
      var n := nelts;
      nelts := nelts - 1;
      last := DetachLast(n);
      if last == null {
        if root == node {
          root := null;
        }
        nodes := [];
        return;
      }
      nodes := nodes[..n - 1];
      Refill(node, last, if node == last then 0 else k);
    }

    /** heap_remove: put the last node into the place of `node` and sift it down, then up. */
    method Remove(node: HeapNode<T>)
      requires Valid() && (nelts > 0 ==> node in nodes)
      modifies this, NodeSet(nodes)
      ensures Valid() && NodeSet(nodes) <= old(NodeSet(nodes))
      ensures multiset(nodes) == old(multiset(nodes)) - multiset{node}
      ensures |nodes| == if old(nelts) == 0 then 0 else old(nelts) - 1
      ensures old(nelts) > 0 ==> LinksOf(node) == Links(null, null, null)
    {
      if nelts == 0 {
        return;
      }
      ghost var k: nat :| k < |nodes| && nodes[k] == node;
      DroppedNodes(nodes, k);
      DroppedSubset(nodes, k);
      var last := TakeOut(node, k);
      if last != null && compare.Compare? {
        Resettle(node, last, old(nodes), k);
      }
    }

    /** Sift the refilled node down, then up.  When it is the removed node itself it has been unlinked,
        so neither loop iterates. */
    method Resettle(node: HeapNode<T>, last: HeapNode<T>, ghost before: seq<HeapNode<T>>, ghost k: nat)
      requires Complete() && compare.Compare? && WeakOrder(compare.less) && HeapOrdered(compare.less, Data(before))
      requires Distinct(before) && k < |before| && |before| > 1 && before[k] == node && before[|before| - 1] == last
      requires nodes == Dropped(before, k) && LinksOf(node) == Links(null, null, null)
      modifies this`root, this`nodes, NodeSet(nodes)
      ensures Valid() && multiset(nodes) == old(multiset(nodes)) && NodeSet(nodes) == old(NodeSet(nodes))
      ensures |nodes| == old(|nodes|)
    {
      ghost var m := |before| - 1;
      if node != last {
        OrderedWithoutLast(compare.less, Data(before), k, last.data);
        assert Data(nodes) == Data(before)[..m][k := last.data];
        ghost var i := SiftDown(last, k);
        SiftUp(last, i);
      } else {
        assert Data(nodes) == Data(before)[..m];
        OrderedPrefix(compare.less, Data(before), m);
      }
    }

    method Dequeue() returns (top: HeapNode?<T>)
      requires Valid()
      modifies this, NodeSet(nodes)
      ensures Valid() && NodeSet(nodes) <= old(NodeSet(nodes)) && top == At(old(nodes), 0)
      ensures top != null ==> multiset(nodes) == old(multiset(nodes)) - multiset{top} && |nodes| == old(|nodes|) - 1
      ensures top == null ==> nodes == [] == old(nodes)
    {
      top := root;
      if top != null {
        Remove(top);
      }
    }
  }

  lemma {:induction false} ShiftBound(n: nat, d: nat)
    requires d >= 1
    ensures Shift(n, d) <= n / 2
  {
    if d > 1 {
      ShiftBound(n, d - 1);
    }
  }

  /** The lowest bit of the path leads from the ancestor d levels up to the one d - 1 levels up. */
  lemma TurnAt(n: nat, d: nat)
    requires d > 1
    ensures Shift(n, d - 1) == 2 * Shift(n, d) + ReversedBits(n, d) % 2 <= n / 2
    ensures ReversedBits(n, d) / 2 == ReversedBits(n, d - 1)
  {
    ShiftBound(n, d - 1);
    LowBit(Shift(n, d - 1) % 2, ReversedBits(n, d - 1));
    LowBit(Shift(n, d - 1) % 2, Shift(n, d));
  }

  lemma LowBit(b: nat, r: nat)
    requires b < 2
    ensures (b + 2 * r) % 2 == b && (b + 2 * r) / 2 == r
  {
  }

  lemma {:induction false} OnlyShift(d: nat)
    ensures Shift(1, d) == 1 <==> d == 0
  {
    if d > 1 {
      OnlyShift(d - 1);
    }
  }

  // ----- draining

  ghost predicate Sorted<T>(less: (T, T) -> bool, s: seq<HeapNode<T>>) {
    forall i, j :: 0 <= i < j < |s| ==> !less(s[j].data, s[i].data)
  }

  /** Dequeuing until the heap is empty yields exactly its nodes, in order. */
  method Drain<T(!new)>(h: Heap<T>) returns (out: seq<HeapNode<T>>)
    requires h.Valid() && h.compare.Compare?
    modifies h, NodeSet(h.nodes)
    ensures h.Valid() && h.nodes == []
    ensures Sorted(h.compare.less, out) && multiset(out) == old(multiset(h.nodes))
  {
    out := [];
    while h.root != null
      invariant h.Valid() && NodeSet(h.nodes) <= old(NodeSet(h.nodes))
      invariant Sorted(h.compare.less, out)
      invariant forall i, x :: 0 <= i < |out| && x in h.nodes ==> !h.compare.less(x.data, out[i].data)
      invariant multiset(out) + multiset(h.nodes) == old(multiset(h.nodes))
      decreases |h.nodes|
    {
      ghost var before := h.nodes;
      TopIsLeast(h.compare.less, before);
      var top := h.Dequeue();
      forall x | x in h.nodes
        ensures x in before
      {
        assert x in multiset(h.nodes) && x in multiset(before);
      }
      out := out + [top];
    }
  }

  lemma TopIsLeast<T(!new)>(less: (T, T) -> bool, nodes: seq<HeapNode<T>>)
    requires WeakOrder(less) && HeapOrdered(less, Data(nodes)) && nodes != []
    ensures forall x :: x in nodes ==> !less(x.data, nodes[0].data)
  {
    forall j | 0 <= j < |nodes|
      ensures !less(nodes[j].data, nodes[0].data)
    {
      RootIsLeast(less, Data(nodes), j);
    }
  }
}
