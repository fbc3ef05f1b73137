/** The growable ring deque with its 32-bit fields. malloc is asked for the product of element size and capacity modulo
    2^32, so the array has room for its capacity exactly when that product does not wrap. */
module Deques {
  import opened Basics

  datatype Shrink = Never | IfEmpty | AtTwentyPercent

  datatype Op = Push | Pop | Unshift | Shift
  {
    predicate Adds() {
      Push? || Unshift?
    }
  }

  /** The fields of struct deq but the elements. */
  datatype Meta = Meta(head: nat, tail: nat, len: nat, cap: nat, min: nat, esz: nat, shrink: Shrink)

  // Capacities

  /** n doubled k times */
  function Doubled(n: nat, k: nat): nat {
    if k == 0 then n else 2 * Doubled(n, k - 1)
  }

  ghost predicate IsCapacity(cap: nat, min: nat) {
    exists k: nat :: cap == Doubled(min, k)
  }

  lemma DoubleCapacity(cap: nat, min: nat)
    requires IsCapacity(cap, min)
    ensures IsCapacity(2 * cap, min)
  {
    var k: nat :| cap == Doubled(min, k);
    assert 2 * cap == Doubled(min, k + 1);
  }

  lemma HalveCapacity(cap: nat, min: nat)
    requires IsCapacity(cap, min) && cap > min
    ensures cap == 2 * (cap / 2) && IsCapacity(cap / 2, min) && cap / 2 >= min
  {
    var k: nat :| cap == Doubled(min, k);
    assert cap / 2 == Doubled(min, k - 1);
    DoubledGrows(min, k - 1);
  }

  lemma {:induction false} DoubledGrows(n: nat, k: nat)
    ensures Doubled(n, k) >= n
  {
    if k > 0 {
      DoubledGrows(n, k - 1);
    }
  }

  ghost predicate Fits(m: Meta) {
    && 1 <= m.min < 4294967296 && 1 <= m.esz && m.cap < 4294967296 && m.esz * m.cap < 4294967296
    && if m.cap == 0 then m.head == 0 && m.tail == 0 && m.len == 0
       else IsCapacity(m.cap, m.min) && m.cap >= m.min && m.head < m.cap && m.tail < m.cap && m.len <= m.cap
            && m.tail == Slot(m.head, m.len, m.cap)
  }

  // deq_resize_ and deq_op_ on the fields

  function Wrap32(x: int): nat {
    x % 4294967296
  }

  /** The test for shrinking at a fifth, as the 32-bit product has it. */
  predicate LooksSparse(m: Meta) {
    m.shrink.AtTwentyPercent? && Wrap32((m.len - 1) * 5) <= m.cap
  }

  /** The capacity that the operation asks for first, if any. */
  function Wanted(m: Meta, op: Op): Option<nat> {
    if op.Adds() then
      if m.len == m.cap then Some(if m.cap == 0 then m.min else Wrap32(2 * m.cap)) else None
    else if m.cap > m.min && m.shrink.IfEmpty? && m.len == 1 then Some(m.min)
    else if m.cap > m.min && LooksSparse(m) then Some(m.cap / 2)
    else None
  }

  function Resized(m: Meta, n: nat): Meta {
    m.(head := 0, tail := m.len, cap := n)
  }

  /** -1, 0, 1 with an index, or a failed assertion of deq_resize_ */
  datatype Outcome = Failed | Empty | Done(i: nat) | Aborted

  /** The indices after the operation, and the index it hands to the caller. */
  function Move(m: Meta, op: Op): (Meta, nat)
    requires m.cap > 0 && (!op.Adds() ==> m.len > 0)
  {
    match op
    case Push => (m.(tail := (m.tail + 1) % m.cap, len := m.len + 1), m.tail)
    case Shift => (m.(head := (m.head + 1) % m.cap, len := m.len - 1), m.head)
    case Pop =>
      var t := (if m.tail == 0 then m.cap else m.tail) - 1;
      (m.(tail := t, len := m.len - 1), t)
    case Unshift =>
      var h := (if m.head == 0 then m.cap else m.head) - 1;
      (m.(head := h, len := m.len + 1), h)
  }

  function Next(m: Meta, op: Op, memory: bool): (Meta, Outcome)
    requires m.cap == 0 ==> m.len == 0
  {
    var want := Wanted(m, op);
    if want.Some? && !(want.value > 0 && want.value >= m.len) then (m, Aborted)
    else if want.Some? && !memory then (m, Failed)
    else
      var r := if want.Some? then Resized(m, want.value) else m;
      if !op.Adds() && m.len == 0 then (r, Empty)
      else
        var (moved, i) := Move(r, op);
        (moved, Done(i))
  }

  lemma OneRound(x: nat, n: nat)
    requires 0 < n && x <= n
    ensures x % n == if x == n then 0 else x
  {
  }

  // When it goes wrong

  /** Doubling wraps, or the wrapped product makes a deque that is more than half full look sparse: the assertion that
      the elements fit fails. */
  predicate Aborts(m: Meta, op: Op) {
    if op.Adds() then m.len == m.cap && 2 * m.cap >= 4294967296
    else m.cap > m.min && LooksSparse(m) && m.cap < 2 * m.len
  }

  /** The product of element size and new capacity wraps, and the array is too small. */
  predicate Overruns(m: Meta, op: Op) {
    op.Adds() && m.len == m.cap && m.esz * (if m.cap == 0 then m.min else 2 * m.cap) >= 4294967296
  }

  /** A shrink that leaves no room, followed by a shift: the tail is stranded at the end of the array. */
  predicate Strands(m: Meta, op: Op) {
    && op.Shift? && m.cap > m.min
    && ((m.shrink.IfEmpty? && m.len == 1 && m.min == 1) || (LooksSparse(m) && m.cap == 2 * m.len))
  }

  lemma SmallWraps(x: nat)
    requires x < 4294967296
    ensures Wrap32(x) == x
  {
  }

  lemma DoubleWraps(cap: nat)
    requires cap < 4294967296
    ensures Wrap32(2 * cap) == if 2 * cap < 4294967296 then 2 * cap else 2 * cap - 4294967296
  {
  }

  /** What is asked for, apart from wrapping, is a capacity. */
  lemma WantedIs(m: Meta, op: Op)
    requires Fits(m) && Wanted(m, op).Some?
    ensures Wanted(m, op).value > 0 && Wanted(m, op).value >= m.len <==> !Aborts(m, op)
    ensures !Aborts(m, op) ==> Wanted(m, op).value >= m.min && IsCapacity(Wanted(m, op).value, m.min)
    ensures !Aborts(m, op) && op.Adds() ==> Wanted(m, op).value == (if m.cap == 0 then m.min else 2 * m.cap) > m.len
    ensures !op.Adds() ==> Wanted(m, op).value < m.cap && m.cap > m.min
    ensures !Aborts(m, op) && op.Shift? ==> (Wanted(m, op).value == m.len <==> Strands(m, op))
  {
    if op.Adds() {
      DoubleWraps(m.cap);
      if m.cap == 0 {
        assert m.min == Doubled(m.min, 0);
      } else {
        DoubleCapacity(m.cap, m.min);
      }
    } else if m.shrink.IfEmpty? {
      assert m.min == Doubled(m.min, 0);
    } else {
      HalveCapacity(m.cap, m.min);
    }
  }

  lemma ProductGrows(e: nat, n: nat, k: nat)
    requires n <= k
    ensures e * n <= e * k
  {
  }

  /** The resized fields fit exactly when the product does not wrap and there is room behind the elements. */
  lemma ResizedFits(m: Meta, op: Op)
    requires Fits(m) && Wanted(m, op).Some? && !Aborts(m, op)
    ensures Fits(Resized(m, Wanted(m, op).value)) <==> !Overruns(m, op) && m.len < Wanted(m, op).value
    ensures Overruns(m, op) <==> m.esz * Wanted(m, op).value >= 4294967296
  {
    WantedIs(m, op);
    if !op.Adds() {
      ProductGrows(m.esz, Wanted(m, op).value, m.cap);
    }
    ProductGrows(1, m.len, m.len);
    AtLeastItself(m.esz, Wanted(m, op).value);
  }

  lemma AtLeastItself(e: nat, n: nat)
    requires e >= 1
    ensures e * n >= n
  {
  }

  ghost predicate Sound(r: (Meta, Outcome)) {
    !r.1.Aborted? && Fits(r.0)
  }

  /** No assertion fails, the array has room for its capacity and the indices stay in range and in step exactly when no
      32-bit product wraps to the wrong side of a test, none wraps in the call of malloc, and no shift strands the
      tail. */
  lemma FitsExactlyWhen(m: Meta, op: Op, memory: bool)
    requires Fits(m)
    ensures Sound(Next(m, op, memory)) <==> !Aborts(m, op) && !(memory && (Overruns(m, op) || Strands(m, op)))
  {
    var want := Wanted(m, op);
    if want.None? {
      MoveFits(m, op);
    } else {
      WantedIs(m, op);
      if memory && !Aborts(m, op) {
        ResizedFits(m, op);
        ResizedMoves(m, op);
      }
    }
  }

  lemma ResizedMoves(m: Meta, op: Op)
    requires Fits(m) && Wanted(m, op).Some? && !Aborts(m, op)
    requires Fits(Resized(m, Wanted(m, op).value)) <==> !Overruns(m, op) && m.len < Wanted(m, op).value
    requires Overruns(m, op) <==> m.esz * Wanted(m, op).value >= 4294967296
    ensures Sound(Next(m, op, true)) <==> !Overruns(m, op) && !Strands(m, op)
  {
    WantedIs(m, op);
    var r := Resized(m, Wanted(m, op).value);
    if Fits(r) {
      MoveFits(r, op);
    } else if !Overruns(m, op) && m.len > 0 {
      FullMoves(r, op);
    }
  }

  /** Of a full array with the tail at its end, a pop is all right and a shift is not. */
  lemma FullMoves(r: Meta, op: Op)
    requires 1 <= r.min < 4294967296 && 1 <= r.esz && r.cap < 4294967296 && r.esz * r.cap < 4294967296
    requires IsCapacity(r.cap, r.min) && r.cap >= r.min && r.head == 0 && r.tail == r.len == r.cap && !op.Adds()
    ensures Fits(Move(r, op).0) <==> op.Pop?
  {
    OneRound(1, r.cap);
  }

  lemma MoveFits(m: Meta, op: Op)
    requires Fits(m) && (op.Adds() ==> m.len < m.cap)
    ensures m.len > 0 || op.Adds() ==> Fits(Move(m, op).0) && Move(m, op).1 < m.cap
  {
    if m.cap > 0 {
      OneRound(m.tail + 1, m.cap);
      OneRound(m.head + 1, m.cap);
    }
  }

  /** Two pushes and a pop on a deque with a minimum of one lead to a shift that strands the tail; the push after it is
      handed an index outside the array. */
  lemma StrandedPushEscapes(esz: nat)
    requires 1 <= esz < 2147483648
    ensures var m := Meta(0, 0, 0, 0, 1, esz, AtTwentyPercent);
            var full := Next(Next(Next(m, Push, true).0, Push, true).0, Pop, true).0;
            Fits(m) && Fits(full) && Strands(full, Shift)
            && Next(Next(full, Shift, true).0, Push, true) == (Meta(0, 0, 1, 1, 1, esz, AtTwentyPercent), Done(1))
  {
    assert 2 == Doubled(1, 1);
    var m := Meta(0, 0, 0, 0, 1, esz, AtTwentyPercent);
    assert Next(m, Push, true).0 == Meta(0, 0, 1, 1, 1, esz, AtTwentyPercent);
    assert Next(Next(m, Push, true).0, Push, true).0 == Meta(0, 0, 2, 2, 1, esz, AtTwentyPercent);
  }

  /** The first push on a deque of 2^28 elements of 16 bytes asks malloc for 0 bytes. */
  lemma WrappedProductOverruns()
    ensures var m := Meta(0, 0, 0, 0, 268435456, 16, Never);
            Fits(m) && Overruns(m, Push) && Wrap32(m.esz * m.min) == 0 && !Sound(Next(m, Push, true))
  {
    FitsExactlyWhen(Meta(0, 0, 0, 0, 268435456, 16, Never), Push, true);
  }

  // The two copies

  /** The length of the first copy, as the 32-bit sum has it. */
  function FirstPart(m: Meta): int {
    if Wrap32(m.head + m.len) <= m.cap then m.len else m.cap - m.head
  }

  /** It ends at the end of the elements or of the array exactly when the sum of head and length does not wrap. */
  lemma FirstPartExactlyWhen(m: Meta)
    requires Fits(m) && m.len > 0
    ensures FirstPart(m) == (if m.head + m.len <= m.cap then m.len else m.cap - m.head) <==> m.head + m.len < 4294967296
  {
    var x := m.head + m.len;
    assert Wrap32(x) == if x < 4294967296 then x else x - 4294967296;
  }

  /** A resize would copy from behind the array. */
  predicate Misreads(m: Meta, op: Op) {
    Wanted(m, op).Some? && m.head + m.len >= 4294967296
  }

  /** None of this happens. */
  predicate Works(m: Meta, op: Op, memory: bool) {
    !Aborts(m, op) && !(memory && (Overruns(m, op) || Strands(m, op) || Misreads(m, op)))
  }

  // The deque

  /** The array holds the sequence from head on, around the end. */
  ghost predicate Holds<T>(v: array<T>, head: nat, s: seq<T>)
    reads v
  {
    && |s| <= v.Length && (v.Length > 0 ==> head < v.Length)
    && forall i: nat {:trigger s[i]} :: i < |s| ==> v[Slot(head, i, v.Length)] == s[i]
  }

  /** Two slices, the second from the start of the array */
  method CopyParts<T>(v: array<T>, head: nat, len: nat, part1: nat, t: array<T>, ghost s: seq<T>)
    requires v != t && Holds(v, head, s) && 0 < |s| == len <= t.Length
    requires part1 == if head + len <= v.Length then len else v.Length - head
    modifies t
    ensures t[..len] == s
  {
    CopySlice(v, head, t, 0, part1);
    ghost var first := t[..part1];
    CopySlice(v, 0, t, part1, len - part1);
    forall i: nat | i < len
      ensures t[i] == s[i]
    {
      assert v[Slot(head, i, v.Length)] == s[i];
      if i < part1 {
        assert t[i] == first[i];
      }
    }
  }

  /** memcpy */
  method CopySlice<T>(v: array<T>, from: nat, t: array<T>, to: nat, n: nat)
    requires v != t && from + n <= v.Length && to + n <= t.Length
    modifies t
    ensures forall i :: 0 <= i < t.Length ==> t[i] == if to <= i < to + n then v[from + (i - to)] else old(t[i])
  {
    for k := 0 to n
      invariant forall i :: 0 <= i < t.Length ==> t[i] == if to <= i < to + k then v[from + (i - to)] else old(t[i])
    {
      t[to + k] := v[from + k];
    }
  }

  class Deque<T(0)> {
    var v: array<T>
    var head: nat
    var tail: nat
    var len: nat
    var cap: nat
    const min: nat
    const esz: nat
    const shrink: Shrink
    ghost var items: seq<T>
    ghost var copied: nat

    ghost function Fields(): Meta
      reads this
    {
      Meta(head, tail, len, cap, min, esz, shrink)
    }

    ghost predicate Valid()
      reads this, v
    {
      Fits(Fields()) && v.Length == cap && len == |items| && Holds(v, head, items)
    }

    /** DEQ_INIT: no memory before the first push or unshift */
    constructor (esz: nat, min: nat, shrink: Shrink)
      requires 1 <= esz && 1 <= min < 4294967296
      ensures Valid() && fresh(v) && items == [] && copied == 0 && Fields() == Meta(0, 0, 0, 0, min, esz, shrink)
    {
      this.esz, this.min, this.shrink := esz, min, shrink;
      v := new T[0];
      head, tail, len, cap, items, copied := 0, 0, 0, 0, [], 0;
    }

    /** deq_resize_ when there is memory */
    method Resize(n: nat)
      requires Valid() && 0 < n && len <= n && head + len < 4294967296
      modifies this`v, this`head, this`tail, this`cap, this`copied
      ensures fresh(v) && v.Length == n && Fields() == Resized(old(Fields()), n) && Holds(v, 0, items)
      ensures copied == old(copied) + len
    {
      var t := new T[n];
      if len > 0 {
        FirstPartExactlyWhen(Fields());
        CopyParts(v, head, len, FirstPart(Meta(head, tail, len, cap, min, esz, shrink)), t, items);
      }
      assert forall i: nat :: i < |items| ==> t[i] == t[..len][i];
      v, head, tail, cap, copied := t, 0, len, n, copied + len;
    }

    /** The resizing half of deq_op_ */
    method Prepare(op: Op, memory: bool) returns (ok: bool)
      requires Valid() && Works(Fields(), op, memory)
      modifies this`v, this`head, this`tail, this`cap, this`copied
      ensures ok == (Wanted(old(Fields()), op).Some? ==> memory)
      ensures !ok ==> Fields() == old(Fields()) && v == old(v) && copied == old(copied)
      ensures ok ==> Fields() == After(old(Fields()), op) && v.Length == cap && Holds(v, head, items)
      ensures ok ==> copied == old(copied) + (if Wanted(old(Fields()), op).Some? then len else 0)
      ensures v == old(v) || fresh(v)
    {
      var m := Meta(head, tail, len, cap, min, esz, shrink);
      var want := Wanted(m, op);
      ok := true;
      if want.Some? {
        WantedIs(m, op);
        if !memory {
          return false;
        }
        Resize(want.value);
      }
    }

    /** The array holds the items, and the indices are in step with them. */
    ghost predicate Placed()
      reads this, v
    {
      v.Length == cap && len == |items| && Holds(v, head, items) && InStep(Fields())
    }

    method Append(e: T) returns (i: nat)
      requires Placed() && len < cap
      modifies this`tail, this`len, this`items, v
      ensures (Fields(), i) == Move(old(Fields()), Op.Push)
      ensures len == |items| && Holds(v, head, items) && items == old(items) + [e]
    {
      i := tail;
      tail, len := (tail + 1) % cap, len + 1;
      v[i] := e;
      items := items + [e];
    }

    method Prepend(e: T) returns (i: nat)
      requires Placed() && len < cap
      modifies this`head, this`len, this`items, v
      ensures (Fields(), i) == Move(old(Fields()), Op.Unshift)
      ensures len == |items| && Holds(v, head, items) && items == [e] + old(items)
    {
      head := (if head == 0 then cap else head) - 1;
      i := head;
      len := len + 1;
      v[i] := e;
      ghost var s := items;
      items := [e] + items;
      assert forall k: nat :: 0 < k < |items| ==>
                                items[k] == s[k - 1] && Slot(head, k, cap) == Slot(old(head), k - 1, cap);
    }

    method TakeLast() returns (i: nat, e: T)
      requires Placed() && len > 0
      modifies this`tail, this`len, this`items
      ensures (Fields(), i) == Move(old(Fields()), Op.Pop)
      ensures len == |items| && Holds(v, head, items) && old(items) == items + [e]
    {
      tail := (if tail == 0 then cap else tail) - 1;
      i := tail;
      len := len - 1;
      e := v[i];
      assert e == items[len];
      items := items[..len];
    }

    method TakeFirst() returns (i: nat, e: T)
      requires Placed() && len > 0
      modifies this`head, this`len, this`items
      ensures (Fields(), i) == Move(old(Fields()), Op.Shift)
      ensures len == |items| && Holds(v, head, items) && old(items) == [e] + items
    {
      OneRound(head + 1, cap);
      i := head;
      head, len := (head + 1) % cap, len - 1;
      e := v[i];
      ghost var s := items;
      assert e == s[0];
      items := items[1..];
      assert forall k: nat :: k < |items| ==> items[k] == s[k + 1] && Slot(head, k, cap) == Slot(old(head), k + 1, cap);
    }

    /** deq_push */
    method Push(e: T, memory: bool) returns (out: Outcome)
      requires Valid() && Works(Fields(), Op.Push, memory)
      modifies this, v
      ensures Valid() && (v == old(v) || fresh(v)) && (Fields(), out) == Next(old(Fields()), Op.Push, memory)
      ensures items == if out.Done? then old(items) + [e] else old(items)
      ensures copied == old(copied) + Cost(old(Fields()), Op.Push, memory)
    {
      FitsExactlyWhen(Fields(), Op.Push, memory);
      var ok := Prepare(Op.Push, memory);
      if !ok {
        return Failed;
      }
      ReadyFor(old(Fields()), Op.Push);
      var i := Append(e);
      return Done(i);
    }

    /** deq_unshift */
    method Unshift(e: T, memory: bool) returns (out: Outcome)
      requires Valid() && Works(Fields(), Op.Unshift, memory)
      modifies this, v
      ensures Valid() && (v == old(v) || fresh(v)) && (Fields(), out) == Next(old(Fields()), Op.Unshift, memory)
      ensures items == if out.Done? then [e] + old(items) else old(items)
      ensures copied == old(copied) + Cost(old(Fields()), Op.Unshift, memory)
    {
      FitsExactlyWhen(Fields(), Op.Unshift, memory);
      var ok := Prepare(Op.Unshift, memory);
      if !ok {
        return Failed;
      }
      ReadyFor(old(Fields()), Op.Unshift);
      var i := Prepend(e);
      return Done(i);
    }

    /** deq_pop */
    method Pop(memory: bool) returns (out: Outcome, e: Option<T>)
      requires Valid() && Works(Fields(), Op.Pop, memory)
      modifies this, v
      ensures Valid() && (v == old(v) || fresh(v)) && (Fields(), out) == Next(old(Fields()), Op.Pop, memory)
      ensures copied == old(copied) + Cost(old(Fields()), Op.Pop, memory) && e.Some? == out.Done?
      ensures old(items) == if e.Some? then items + [e.value] else items
    {
      FitsExactlyWhen(Fields(), Op.Pop, memory);
      var ok := Prepare(Op.Pop, memory);
      if !ok {
        return Failed, None;
      }
      if len == 0 {
        return Empty, None;
      }
      ReadyFor(old(Fields()), Op.Pop);
      var i, x := TakeLast();
      return Done(i), Some(x);
    }

    /** deq_shift */
    method Shift(memory: bool) returns (out: Outcome, e: Option<T>)
      requires Valid() && Works(Fields(), Op.Shift, memory)
      modifies this, v
      ensures Valid() && (v == old(v) || fresh(v)) && (Fields(), out) == Next(old(Fields()), Op.Shift, memory)
      ensures copied == old(copied) + Cost(old(Fields()), Op.Shift, memory) && e.Some? == out.Done?
      ensures old(items) == if e.Some? then [e.value] + items else items
    {
      FitsExactlyWhen(Fields(), Op.Shift, memory);
      var ok := Prepare(Op.Shift, memory);
      if !ok {
        return Failed, None;
      }
      if len == 0 {
        return Empty, None;
      }
      ReadyFor(old(Fields()), Op.Shift);
      var i, x := TakeFirst();
      return Done(i), Some(x);
    }

    /** deq_first */
    method First() returns (e: Option<T>)
      requires Valid()
      ensures e == if items == [] then None else Some(items[0])
    {
      if len == 0 {
        return None;
      }
      assert v[Slot(head, 0, cap)] == items[0];
      return Some(v[head]);
    }

    /** deq_last */
    method Last() returns (e: Option<T>)
      requires Valid()
      ensures e == if items == [] then None else Some(items[|items| - 1])
    {
      if len == 0 {
        return None;
      }
      var i := if tail == 0 then cap else tail;
      assert v[Slot(head, len - 1, cap)] == items[len - 1];
      return Some(v[i - 1]);
    }

    /** Any sequence of operations that works: the deque answers as a sequence, at the cost of the specification. */
    method Run(calls: seq<Call<T>>) returns (replies: seq<Reply<T>>)
      requires Valid() && Working(State(Fields(), items), calls)
      modifies this, v
      ensures Valid() && State(Fields(), items) == End(State(old(Fields()), old(items)), calls)
      ensures replies == Replies(State(old(Fields()), old(items)), calls)
      ensures copied == old(copied) + TotalCost(State(old(Fields()), old(items)), calls)
      decreases |calls|
    {
      if calls == [] {
        return [];
      }
      var reply := Do(calls[0]);
      var rest := Run(calls[1..]);
      return [reply] + rest;
    }

    method Do(call: Call<T>) returns (reply: Reply<T>)
      requires Valid() && Works(Fields(), call.op, call.memory)
      modifies this, v
      ensures Valid() && (v == old(v) || fresh(v))
      ensures State(Fields(), items) == Step(State(old(Fields()), old(items)), call)
      ensures copied == old(copied) + Cost(old(Fields()), call.op, call.memory)
      ensures reply == ReplyTo(old(Fields()), old(items), call)
    {
      var out, e := Failed, None;
      match call.op {
        case Push => out := Push(call.e, call.memory);
        case Unshift => out := Unshift(call.e, call.memory);
        case Pop => out, e := Pop(call.memory);
        case Shift => out, e := Shift(call.memory);
      }
      return match out
        case Empty => Nothing
        case Done(_) => if e.Some? then Took(e.value) else Stored
        case _ => Refused;
    }
  }

  /** The tail is just behind the last element; it may be at the end of the array only when that is full from the
      start. */
  predicate InStep(m: Meta) {
    && 0 < m.cap && m.head < m.cap && m.len <= m.cap
    && (m.tail == Slot(m.head, m.len, m.cap) || (m.head == 0 && m.tail == m.cap == m.len))
  }

  lemma ReadyFor(m: Meta, op: Op)
    requires Fits(m) && !Aborts(m, op)
    ensures op.Adds() ==> InStep(After(m, op)) && m.len < After(m, op).cap
    ensures m.len > 0 ==> InStep(After(m, op))
  {
    if Wanted(m, op).Some? {
      WantedIs(m, op);
    }
  }

  /** The fields once the wanted capacity is there. */
  function After(m: Meta, op: Op): Meta {
    if Wanted(m, op).Some? then Resized(m, Wanted(m, op).value) else m
  }

  function Cost(m: Meta, op: Op, memory: bool): nat {
    if Wanted(m, op).Some? && memory then m.len else 0
  }

  // Runs

  /** An operation, the element to store if it stores one, and whether an allocation would succeed. */
  datatype Call<T> = Call(op: Op, e: T, memory: bool)

  datatype Reply<T> = Refused | Nothing | Stored | Took(e: T)

  /** The sequence after a call: unchanged when memory is refused or there is nothing to take. */
  function ItemsAfter<T>(m: Meta, s: seq<T>, call: Call<T>): seq<T>
    requires (m.cap == 0 ==> m.len == 0) && m.len == |s|
  {
    if !Next(m, call.op, call.memory).1.Done? then s
    else match call.op
      case Push => s + [call.e]
      case Unshift => [call.e] + s
      case Pop => s[..|s| - 1]
      case Shift => s[1..]
  }

  function ReplyTo<T>(m: Meta, s: seq<T>, call: Call<T>): Reply<T>
    requires (m.cap == 0 ==> m.len == 0) && m.len == |s|
  {
    match Next(m, call.op, call.memory).1
    case Empty => Nothing
    case Done(_) =>
      (match call.op
       case Push => Stored
       case Unshift => Stored
       case Pop => Took(s[|s| - 1])
       case Shift => Took(s[0]))
    case _ => Refused
  }

  lemma StepRuns(m: Meta, op: Op, memory: bool)
    requires Fits(m) && Works(m, op, memory)
    ensures Fits(Next(m, op, memory).0) && !Next(m, op, memory).1.Aborted?
    ensures Next(m, op, memory).0.len
            == if !Next(m, op, memory).1.Done? then m.len else if op.Adds() then m.len + 1 else m.len - 1
  {
    FitsExactlyWhen(m, op, memory);
  }

  /** An operation that works fails exactly when it needs memory and gets none; otherwise it stores, or takes exactly
      when there is something to take. It needs memory to add to a full array, or to take when it is to shrink. */
  lemma AnsweredExactlyWhen(m: Meta, op: Op, memory: bool)
    requires Fits(m) && Works(m, op, memory)
    ensures var (m', out) := Next(m, op, memory);
            && (op.Adds() ==> (if m.len == m.cap && !memory then out.Failed? else out.Done? && m'.len == m.len + 1))
            && (!op.Adds() && Wanted(m, op).Some? && !memory ==> out.Failed?)
            && (!op.Adds() && !(Wanted(m, op).Some? && !memory) ==>
                  if m.len == 0 then out.Empty? else out.Done? && m'.len == m.len - 1)
            && (out.Failed? || out.Empty? ==> m'.len == m.len) && (out.Failed? ==> m' == m)
  {
    StepRuns(m, op, memory);
  }

  /** The fields and the sequence they describe. */
  datatype State<T> = State(m: Meta, s: seq<T>)

  ghost predicate Consistent<T>(st: State<T>) {
    Fits(st.m) && st.m.len == |st.s|
  }

  ghost function Step<T>(st: State<T>, call: Call<T>): (st': State<T>)
    requires Consistent(st) && Works(st.m, call.op, call.memory)
    ensures Consistent(st')
  {
    StepRuns(st.m, call.op, call.memory);
    State(Next(st.m, call.op, call.memory).0, ItemsAfter(st.m, st.s, call))
  }

  /** Every call works when its turn comes. */
  ghost predicate Working<T>(st: State<T>, calls: seq<Call<T>>)
    decreases |calls|
  {
    && Consistent(st)
    && (calls == [] || (Works(st.m, calls[0].op, calls[0].memory) && Working(Step(st, calls[0]), calls[1..])))
  }

  ghost function End<T>(st: State<T>, calls: seq<Call<T>>): State<T>
    requires Working(st, calls)
    decreases |calls|
  {
    if calls == [] then st else End(Step(st, calls[0]), calls[1..])
  }

  ghost function Replies<T>(st: State<T>, calls: seq<Call<T>>): seq<Reply<T>>
    requires Working(st, calls)
    decreases |calls|
  {
    if calls == [] then [] else [ReplyTo(st.m, st.s, calls[0])] + Replies(Step(st, calls[0]), calls[1..])
  }

  /** How many elements the resizes of a run copy. */
  ghost function TotalCost<T>(st: State<T>, calls: seq<Call<T>>): nat
    requires Working(st, calls)
    decreases |calls|
  {
    if calls == [] then 0 else Cost(st.m, calls[0].op, calls[0].memory) + TotalCost(Step(st, calls[0]), calls[1..])
  }

  /** No shift of this deque can strand its tail by shrinking to a minimum of one. */
  predicate Steady(m: Meta) {
    m.min >= 2 || m.shrink.Never?
  }

  /** A bound on the length after a call, for a bound on it before; a take may be refused without memory. */
  function Most(len: nat, op: Op, memory: bool): nat {
    if op.Adds() then len + 1 else if memory && len > 0 then len - 1 else len
  }

  /** However many calls there are, they never bring that length above L. */
  predicate Low<T>(len: nat, calls: seq<Call<T>>, L: nat)
    decreases |calls|
  {
    len <= L && (calls == [] || Low(Most(len, calls[0].op, calls[0].memory), calls[1..], L))
  }

  /** Capacities up to B are harmless, and lengths up to L never ask for more. */
  predicate Modest(m: Meta, L: nat, B: nat) {
    && Steady(m) && m.cap <= B && m.min <= B && 2 * L <= B && m.esz * B < 4294967296
    && B + L <= 4294967296 && (m.shrink.AtTwentyPercent? ==> L <= 858993460)
  }

  lemma ModestWorks(m: Meta, L: nat, B: nat, op: Op, memory: bool)
    requires Fits(m) && m.len <= L && (op.Adds() ==> m.len < L) && Modest(m, L, B)
    ensures Works(m, op, memory)
  {
    if m.len > 0 && m.len <= 858993460 {
      SmallWraps((m.len - 1) * 5);
    }
    DoubleWraps(m.cap);
    ProductGrows(m.esz, if m.cap == 0 then m.min else 2 * m.cap, if m.len == m.cap then B else 2 * B);
  }

  lemma ModestStays(m: Meta, L: nat, B: nat, op: Op, memory: bool)
    requires Fits(m) && m.len <= L && (op.Adds() ==> m.len < L) && Modest(m, L, B) && Works(m, op, memory)
    ensures Modest(Next(m, op, memory).0, L, B) && Next(m, op, memory).0.len <= Most(m.len, op, memory)
  {
    StepRuns(m, op, memory);
    if Wanted(m, op).Some? {
      WantedIs(m, op);
    }
  }

  /** On a deque with a minimum of at least two, or one that never shrinks, every run whose length stays low works,
      whatever memory there is. */
  lemma {:induction false} LowRunsWork<T>(st: State<T>, calls: seq<Call<T>>, len: nat, L: nat, B: nat)
    requires Consistent(st) && Modest(st.m, L, B) && st.m.len <= len && Low(len, calls, L)
    ensures Working(st, calls)
    decreases |calls|
  {
    if calls != [] {
      var op, memory := calls[0].op, calls[0].memory;
      ModestWorks(st.m, L, B, op, memory);
      ModestStays(st.m, L, B, op, memory);
      LowRunsWork(Step(st, calls[0]), calls[1..], Most(len, op, memory), L, B);
    }
  }

  // The amortised cost

  /** A deque above its least capacity is more than a fifth full. */
  ghost predicate Lean(m: Meta) {
    Fits(m) && m.min >= 2 && m.shrink.AtTwentyPercent? && (m.cap > m.min ==> 5 * m.len > m.cap)
  }

  /** The wrapped product makes it look sparse although it is not. */
  predicate ShrinksEarly(m: Meta, op: Op) {
    !op.Adds() && m.cap > m.min && LooksSparse(m) && 5 * (m.len - 1) >= 4294967296
  }

  /** What has been saved for the next growth, or for the next shrink. */
  function Saved(len: nat, cap: nat, min: nat): nat {
    var grow := if 2 * len > cap then 2 * len - cap else 0;
    var shrink := if cap > min && 2 * cap / 5 > len then 2 * cap / 5 - len else 0;
    if grow > shrink then grow else shrink
  }

  function Potential(m: Meta): nat {
    Saved(m.len, m.cap, m.min)
  }

  lemma GrowthIsSaved(cap: nat, min: nat)
    requires cap >= min
    ensures cap + Saved(cap + 1, 2 * cap, min) <= Saved(cap, cap, min) + 2
  {
  }

  lemma ShrinkIsSaved(len: nat, cap: nat, min: nat)
    requires 0 < len && cap % 2 == 0 && 5 * len > cap >= 5 * (len - 1)
    requires cap > min
    ensures len + Saved(len - 1, cap / 2, min) <= Saved(len, cap, min) + 2
  {
    var half := cap / 2;
    assert 2 * half == cap && cap / 5 == len - 1;
    assert 2 * cap / 5 >= 2 * (len - 1);
  }

  lemma StepSaves(len: nat, cap: nat, min: nat)
    ensures Saved(len + 1, cap, min) <= Saved(len, cap, min) + 2
    ensures len > 0 ==> Saved(len - 1, cap, min) <= Saved(len, cap, min) + 1
  {
  }

  /** How an operation may change length and capacity, and how many elements it copies: not at all, by one with the
      capacity kept, or with a growth when full or a shrink at a fifth. */
  predicate SizeStep(len: nat, cap: nat, min: nat, len': nat, cap': nat, cost: nat) {
    || (len' == len && cap' == cap && cost == 0)
    || (len' == len + 1 && cap' == cap && cost == 0)
    || (len' == len - 1 && cap' == cap && cost == 0 && (cap > min ==> 5 * len' > cap))
    || (len' == 1 && len == cap == 0 && cap' == min && cost == 0)
    || (len' == len + 1 && cap' == 2 * cap && len == cap == cost && cap >= min)
    || (len' == len - 1 && cap' == cap / 2 && cap % 2 == 0 && len == cost && cap > min && cap >= 5 * (len - 1))
  }

  /** A lean deque that does not shrink early wants to shrink exactly at a fifth. */
  lemma LeanWants(m: Meta, op: Op)
    requires Lean(m) && !Aborts(m, op) && !ShrinksEarly(m, op)
    ensures op.Adds() ==> Wanted(m, op) == if m.len < m.cap then None else Some(if m.cap == 0 then m.min else 2 * m.cap)
    ensures !op.Adds() ==> Wanted(m, op) == if m.cap > m.min && m.cap >= 5 * (m.len - 1) then Some(m.cap / 2) else None
    ensures m.len == 0 ==> m.cap <= m.min
  {
    DoubleWraps(m.cap);
    if 0 < m.len && 5 * (m.len - 1) < 4294967296 {
      SmallWraps((m.len - 1) * 5);
    }
  }

  lemma NextSizes(m: Meta, op: Op, memory: bool)
    requires Fits(m) && Works(m, op, memory)
    ensures Next(m, op, memory).0.cap == if Wanted(m, op).Some? && memory then Wanted(m, op).value else m.cap
    ensures Next(m, op, memory).0.len
            == if (Wanted(m, op).Some? && !memory) || (!op.Adds() && m.len == 0) then m.len
               else if op.Adds() then m.len + 1 else m.len - 1
    ensures Next(m, op, memory).0.min == m.min && Next(m, op, memory).0.shrink == m.shrink
  {
    StepRuns(m, op, memory);
  }

  lemma SizesStep(m: Meta, op: Op, memory: bool)
    requires Lean(m) && Works(m, op, memory) && !(memory && ShrinksEarly(m, op))
    ensures SizeStep(m.len, m.cap, m.min, Next(m, op, memory).0.len, Next(m, op, memory).0.cap, Cost(m, op, memory))
  {
    NextSizes(m, op, memory);
    if m.cap > m.min {
      HalveCapacity(m.cap, m.min);
    }
    if !ShrinksEarly(m, op) {
      LeanWants(m, op);
    }
  }

  lemma StepIsSaved(len: nat, cap: nat, min: nat, len': nat, cap': nat, cost: nat)
    requires min >= 2 && (cap > min ==> 5 * len > cap) && SizeStep(len, cap, min, len', cap', cost)
    ensures cost + Saved(len', cap', min) <= Saved(len, cap, min) + 2
    ensures cap' > min ==> 5 * len' > cap'
  {
    StepSaves(len, cap, min);
    if cap' == 2 * cap && len == cap == cost && len' == len + 1 && cap >= min {
      GrowthIsSaved(cap, min);
    } else if cap' == cap / 2 && len == cost && len' == len - 1 && cap > min && cap % 2 == 0 && cap >= 5 * (len - 1) {
      ShrinkIsSaved(len, cap, min);
      ShrinkStaysLean(len, cap, min);
    }
  }

  /** Each operation costs at most two copies, counting what it adds to or takes from the savings, exactly when it does
      not shrink early. */
  lemma Amortised(m: Meta, op: Op, memory: bool)
    requires Lean(m) && Works(m, op, memory)
    ensures Lean(Next(m, op, memory).0)
    ensures Cost(m, op, memory) + Potential(Next(m, op, memory).0) <= Potential(m) + 2 <==>
            !(memory && ShrinksEarly(m, op))
  {
    StepRuns(m, op, memory);
    NextSizes(m, op, memory);
    var n := Next(m, op, memory).0;
    if memory && ShrinksEarly(m, op) {
      assert m.len >= 858993461;
    } else {
      SizesStep(m, op, memory);
      StepIsSaved(m.len, m.cap, m.min, n.len, n.cap, Cost(m, op, memory));
    }
  }

  /** No call of the run shrinks early. */
  ghost predicate Thrifty<T>(st: State<T>, calls: seq<Call<T>>)
    requires Working(st, calls)
    decreases |calls|
  {
    calls == [] || (!(calls[0].memory && ShrinksEarly(st.m, calls[0].op)) && Thrifty(Step(st, calls[0]), calls[1..]))
  }

  /** All resizes of a run together copy at most two elements a call, plus what had been saved before. */
  lemma {:induction false} RunIsCheap<T>(st: State<T>, calls: seq<Call<T>>)
    requires Working(st, calls) && Lean(st.m) && Thrifty(st, calls)
    ensures TotalCost(st, calls) <= Potential(st.m) + 2 * |calls|
    decreases |calls|
  {
    if calls != [] {
      Amortised(st.m, calls[0].op, calls[0].memory);
      RunIsCheap(Step(st, calls[0]), calls[1..]);
    }
  }

  /** The calls never bring the length to where five times one less wraps. */
  lemma {:induction false} LowRunIsThrifty<T>(st: State<T>, calls: seq<Call<T>>, len: nat)
    requires Working(st, calls) && st.m.len <= len && Low(len, calls, 858993460)
    ensures Thrifty(st, calls)
    decreases |calls|
  {
    if calls != [] {
      NextSizes(st.m, calls[0].op, calls[0].memory);
      LowRunIsThrifty(Step(st, calls[0]), calls[1..], Most(len, calls[0].op, calls[0].memory));
    }
  }

  /** DEQ_INIT with shrinking at a fifth */
  function New<T>(min: nat, esz: nat): State<T> {
    State(Meta(0, 0, 0, 0, min, esz, AtTwentyPercent), [])
  }

  /** From DEQ_INIT nothing has been saved: the resizes of any run that stays low copy two elements a call at most. */
  lemma NewRunIsCheap<T>(esz: nat, min: nat, calls: seq<Call<T>>)
    requires 1 <= esz && 2 <= min < 4294967296 && Working(New(min, esz), calls) && Low(0, calls, 858993460)
    ensures TotalCost(New(min, esz), calls) <= 2 * |calls|
  {
    LowRunIsThrifty(New<T>(min, esz), calls, 0);
    RunIsCheap(New(min, esz), calls);
  }

  lemma ShrinkStaysLean(len: nat, cap: nat, min: nat)
    requires cap % 2 == 0 && 5 * len > cap && len > 0 && min >= 2
    ensures cap / 2 > min ==> 5 * (len - 1) > cap / 2
  {
  }

  // Where deques of single bytes get to

  lemma {:induction false} RunConcat<T>(st: State<T>, a: seq<Call<T>>, b: seq<Call<T>>)
    requires Working(st, a) && Working(End(st, a), b)
    ensures Working(st, a + b) && End(st, a + b) == End(End(st, a), b)
    decreases |a|
  {
    if a == [] {
      assert a + b == b;
    } else {
      var calls := a + b;
      assert calls[0] == a[0] && calls[1..] == a[1..] + b;
      RunConcat(Step(st, a[0]), a[1..], b);
      assert Working(Step(st, calls[0]), calls[1..]);
    }
  }

  /** The same call n times */
  function Repeat<T>(c: Call<T>, n: nat): (calls: seq<Call<T>>)
    ensures |calls| == n && forall i :: 0 <= i < n ==> calls[i] == c
  {
    seq(n, _ => c)
  }

  lemma RepeatNext<T>(c: Call<T>, n: nat)
    requires n > 0
    ensures Repeat(c, n)[0] == c && Repeat(c, n)[1..] == Repeat(c, n - 1)
  {
  }

  /** The run leads to these fields. */
  ghost predicate Reaches<T>(st: State<T>, calls: seq<Call<T>>, m: Meta) {
    Working(st, calls) && End(st, calls).m == m
  }

  lemma ReachesThen<T>(st: State<T>, a: seq<Call<T>>, b: seq<Call<T>>, m: Meta)
    requires Working(st, a) && Reaches(End(st, a), b, m)
    ensures Reaches(st, a + b, m)
  {
    RunConcat(st, a, b);
  }

  /** len bytes from the start of the array on */
  function Filled(min: nat, cap: nat, len: nat): Meta {
    Meta(0, if len == cap then 0 else len, len, cap, min, 1, AtTwentyPercent)
  }

  lemma {:induction false} PushesFill<T>(st: State<T>, min: nat, cap: nat, e: T, n: nat)
    requires Consistent(st) && st.m == Filled(min, cap, st.m.len) && st.m.len + n <= cap
    ensures Reaches(st, Repeat(Call(Push, e, true), n), Filled(min, cap, st.m.len + n))
    decreases n
  {
    var c := Call(Push, e, true);
    if n > 0 {
      RepeatNext(c, n);
      OneRound(st.m.tail + 1, cap);
      PushesFill(Step(st, c), min, cap, e, n - 1);
    }
  }

  lemma FillsMinimum<T>(min: nat, e: T)
    requires 2 <= min < 2147483648
    ensures Reaches(New(min, 1), Repeat(Call(Push, e, true), min), Filled(min, min, min))
  {
    var c, st := Call(Push, e, true), New<T>(min, 1);
    RepeatNext(c, min);
    assert Doubled(min, 0) == min;
    assert Consistent(st) && Works(st.m, Push, true);
    OneRound(1, min);
    assert Step(st, c).m == Filled(min, min, 1);
    PushesFill(Step(st, c), min, min, e, min - 1);
  }

  lemma GrowsFull<T>(st: State<T>, min: nat, e: T, n: nat)
    requires Consistent(st) && st.m == Filled(min, min, min) && 2 <= min < 2147483648 && 0 < n <= min
    ensures Reaches(st, Repeat(Call(Push, e, true), n), Filled(min, 2 * min, min + n))
  {
    var c := Call(Push, e, true);
    RepeatNext(c, n);
    DoubleWraps(min);
    assert Works(st.m, Push, true);
    OneRound(min + 1, 2 * min);
    assert Step(st, c).m == Filled(min, 2 * min, min + 1);
    PushesFill(Step(st, c), min, 2 * min, e, n - 1);
  }

  lemma GrowsAfter<T>(st: State<T>, fill: seq<Call<T>>, min: nat, e: T, n: nat)
    requires Reaches(st, fill, Filled(min, min, min)) && 2 <= min < 2147483648 && 0 < n <= min
    ensures Reaches(st, fill + Repeat(Call(Push, e, true), n), Filled(min, 2 * min, min + n))
  {
    EndFits(st, fill);
    GrowsFull(End(st, fill), min, e, n);
    ReachesThen(st, fill, Repeat(Call(Push, e, true), n), Filled(min, 2 * min, min + n));
  }

  /** Pushes alone fill the array past its minimum. */
  lemma FilledReached<T>(min: nat, len: nat, e: T)
    requires 2 <= min < 2147483648 && min < len <= 2 * min
    ensures Reaches(New(min, 1), Repeat(Call(Push, e, true), len), Filled(min, 2 * min, len))
  {
    var c := Call(Push, e, true);
    FillsMinimum(min, e);
    GrowsAfter(New(min, 1), Repeat(c, min), min, e, len - min);
    RepeatSplit(c, min, len - min);
  }

  lemma RepeatSplit<T>(c: Call<T>, a: nat, b: nat)
    ensures Repeat(c, a) + Repeat(c, b) == Repeat(c, a + b)
  {
  }

  lemma {:induction false} EndFits<T>(st: State<T>, calls: seq<Call<T>>)
    requires Working(st, calls)
    ensures Consistent(End(st, calls))
    decreases |calls|
  {
    if calls != [] {
      EndFits(Step(st, calls[0]), calls[1..]);
    }
  }

  /** With 858993461 of 2^30 places in use, which pushes alone bring about, five times 858993460 wraps to 4, and a
      pop asks for half the places. */
  lemma WrappedTestAborts<T>(e: T, memory: bool)
    ensures var m := Filled(536870912, 1073741824, 858993461);
            && Reaches(New(536870912, 1), Repeat(Call(Push, e, true), 858993461), m)
            && Wanted(m, Pop) == Some(536870912) && Next(m, Pop, memory).1.Aborted?
  {
    FilledReached(536870912, 858993461, e);
  }

  /** Pushes alone fill 2^31 places; twice that wraps to 0, and the next push or unshift asks for no places. */
  lemma WrappedDoublingAborts<T>(e: T, op: Op, memory: bool)
    requires op.Adds()
    ensures var m := Filled(1073741824, 2147483648, 2147483648);
            && Reaches(New(1073741824, 1), Repeat(Call(Push, e, true), 2147483648), m)
            && Wanted(m, op) == Some(0) && Next(m, op, memory).1.Aborted?
  {
    FilledReached(1073741824, 2147483648, e);
  }

  lemma {:induction false} PopsDrain<T>(st: State<T>, e: T, n: nat)
    requires Consistent(st) && st.m == Filled(1717986918, 3435973836, st.m.len)
    requires 1546188227 + n <= st.m.len <= 1717986919
    ensures Reaches(st, Repeat(Call(Pop, e, true), n), Filled(1717986918, 3435973836, st.m.len - n))
    decreases n
  {
    var c := Call(Pop, e, true);
    if n > 0 {
      RepeatNext(c, n);
      assert Wanted(st.m, Pop) == None;
      PopsDrain(Step(st, c), e, n - 1);
    }
  }

  lemma DrainedReached<T>(e: T, len: nat) returns (calls: seq<Call<T>>)
    requires 1546188227 <= len <= 1717986919
    ensures Reaches(New(1717986918, 1), calls, Filled(1717986918, 3435973836, len))
  {
    var st, fill := New<T>(1717986918, 1), Repeat(Call(Push, e, true), 1717986919);
    var drain := Repeat(Call(Pop, e, true), 1717986919 - len);
    FilledReached(1717986918, 1717986919, e);
    EndFits(st, fill);
    PopsDrain(End(st, fill), e, 1717986919 - len);
    ReachesThen(st, fill, drain, Filled(1717986918, 3435973836, len));
    calls := fill + drain;
  }

  /** Pushes and pops bring a deque to 1546188227 of 3435973836 places in use, where five times 1546188226 wraps to just
      below the capacity: the next pop halves an array that is almost half full. */
  lemma WrappedTestShrinksEarly<T>(e: T) returns (calls: seq<Call<T>>)
    ensures var m := Filled(1717986918, 3435973836, 1546188227);
            Reaches(New(1717986918, 1), calls, m) && Works(m, Pop, true) && ShrinksEarly(m, Pop)
  {
    calls := DrainedReached(e, 1546188227);
  }

  /** 1546188228 elements from h on */
  function Turned(h: nat): Meta
    requires h < 3435973836
  {
    Meta(h, Slot(h, 1546188228, 3435973836), 1546188228, 3435973836, 1717986918, 1, AtTwentyPercent)
  }

  /** A push and a shift, n times */
  function Turns<T>(e: T, n: nat): seq<Call<T>> {
    if n == 0 then [] else [Call(Push, e, true), Call(Shift, e, true)] + Turns(e, n - 1)
  }

  /** A push and a shift leave the length and move the elements on by one place. */
  lemma TurnStep<T>(st: State<T>, e: T, h: nat)
    requires Consistent(st) && h < 3435973835 && st.m == Turned(h)
    ensures Works(st.m, Push, true) && Works(Step(st, Call(Push, e, true)).m, Shift, true)
    ensures Step(Step(st, Call(Push, e, true)), Call(Shift, e, true)).m == Turned(h + 1)
  {
    assert Wanted(st.m, Push) == None;
    OneRound(st.m.tail + 1, 3435973836);
    var m := Step(st, Call(Push, e, true)).m;
    assert m == Meta(h, Slot(h, 1546188229, 3435973836), 1546188229, 3435973836, 1717986918, 1, AtTwentyPercent);
    assert Wanted(m, Shift) == None;
    OneRound(h + 1, 3435973836);
  }

  lemma {:induction false} TurnsMove<T>(st: State<T>, e: T, h: nat, n: nat)
    requires Consistent(st) && h + n < 3435973836 && st.m == Turned(h)
    ensures Reaches(st, Turns(e, n), Turned(h + n))
    decreases n
  {
    if n > 0 {
      TurnStep(st, e, h);
      var two := Step(Step(st, Call(Push, e, true)), Call(Shift, e, true));
      TurnsMove(two, e, h + 1, n - 1);
      TwoCalls(st, Call(Push, e, true), Call(Shift, e, true), Turns(e, n - 1), Turned(h + n));
    }
  }

  lemma TwoCalls<T>(st: State<T>, c: Call<T>, d: Call<T>, rest: seq<Call<T>>, m: Meta)
    requires Consistent(st) && Works(st.m, c.op, c.memory) && Works(Step(st, c).m, d.op, d.memory)
    requires Reaches(Step(Step(st, c), d), rest, m)
    ensures Reaches(st, [c, d] + rest, m)
  {
    var calls := [c, d] + rest;
    assert calls[1..] == [d] + rest && calls[1..][1..] == rest;
    assert Working(Step(st, c), calls[1..]) && End(Step(st, c), calls[1..]).m == m;
  }

  /** Shifts paired with pushes bring the head of that deque to 2748779069, from where the elements end 2^32 places
      after the first: a pop that resizes would copy them all from there on, behind the array. */
  lemma WrappedSumMisreads<T>(e: T) returns (calls: seq<Call<T>>)
    ensures var m := Meta(2748779069, 858993460, 1546188227, 3435973836, 1717986918, 1, AtTwentyPercent);
            Reaches(New(1717986918, 1), calls, m) && Misreads(m, Pop) && FirstPart(m) == m.len
  {
    var st, shift := New<T>(1717986918, 1), [Call(Shift, e, true)];
    var drained := DrainedReached(e, 1546188228);
    EndFits(st, drained);
    var turns := Turns(e, 2748779068);
    TurnsMove(End(st, drained), e, 0, 2748779068);
    ReachesThen(st, drained, turns, Turned(2748779068));
    var last := End(st, drained + turns);
    EndFits(st, drained + turns);
    LastShift(last, e);
    calls := drained + turns + shift;
    ReachesThen(st, drained + turns, shift,
                Meta(2748779069, 858993460, 1546188227, 3435973836, 1717986918, 1, AtTwentyPercent));
  }

  lemma LastShift<T>(st: State<T>, e: T)
    requires Consistent(st) && st.m == Turned(2748779068)
    ensures Reaches(st, [Call(Shift, e, true)],
                    Meta(2748779069, 858993460, 1546188227, 3435973836, 1717986918, 1, AtTwentyPercent))
  {
    assert Wanted(st.m, Shift) == None;
    OneRound(2748779069, 3435973836);
    var calls := [Call(Shift, e, true)];
    assert calls[1..] == [];
  }
}
