/** The power-of-two ring buffer: items move through an array that is used around its end, counted by 32-bit counters
    that are never reduced and wrap. The counters are numbers below 2^32; masking with size - 1 is a remainder by the
    size. */
module RingBuffers {
  import opened Basics

  // rounddown_pow_of_two, on the 32 bits of its argument, lowest first

  type Bits = seq<bool>

  function ToBits(n: nat, k: nat): (b: Bits)
    ensures |b| == k
  {
    if k == 0 then [] else [n % 2 == 1] + ToBits(n / 2, k - 1)
  }

  function Value(b: Bits): nat {
    if b == [] then 0 else (if b[0] then 1 else 0) + 2 * Value(b[1..])
  }

  lemma {:induction false} ValueToBits(n: nat, k: nat)
    requires n < Pow2(k)
    ensures Value(ToBits(n, k)) == n
  {
    if k > 0 {
      ValueToBits(n / 2, k - 1);
      assert ToBits(n, k)[1..] == ToBits(n / 2, k - 1);
    }
  }

  /** n |= n >> k */
  function Smeared(b: Bits, k: nat): (c: Bits)
    ensures |c| == |b|
  {
    seq(|b|, i requires 0 <= i < |b| => b[i] || (i + k < |b| && b[i + k]))
  }

  /** Some bit among the w from i on is set. */
  predicate AnySet(b: Bits, i: nat, w: nat) {
    exists j :: i <= j < i + w && j < |b| && b[j]
  }

  /** Every bit of c is the union of w bits of b. */
  ghost predicate Covers(c: Bits, b: Bits, w: nat) {
    |c| == |b| && forall i: nat {:trigger c[i]} :: i < |b| ==> (c[i] <==> AnySet(b, i, w))
  }

  lemma SmearCovers(c: Bits, b: Bits, w: nat)
    requires Covers(c, b, w)
    ensures Covers(Smeared(c, w), b, 2 * w)
  {
    var d := Smeared(c, w);
    forall i: nat | i < |b|
      ensures d[i] <==> AnySet(b, i, 2 * w)
    {
      if AnySet(b, i, 2 * w) {
        var j :| i <= j < i + 2 * w && j < |b| && b[j];
        if j < i + w {
          assert AnySet(b, i, w);
        } else {
          assert AnySet(b, i + w, w);
        }
      }
    }
  }

  /** The highest bit that is set. */
  ghost predicate IsTop(b: Bits, t: nat) {
    t < |b| && b[t] && forall i :: t < i < |b| ==> !b[i]
  }

  lemma {:induction false} TopExists(b: Bits)
    requires Value(b) > 0
    ensures exists t: nat :: IsTop(b, t) && Pow2(t) <= Value(b) < 2 * Pow2(t)
  {
    if Value(b[1..]) > 0 {
      TopExists(b[1..]);
      var t: nat :| IsTop(b[1..], t) && Pow2(t) <= Value(b[1..]) < 2 * Pow2(t);
      assert forall i :: 0 < i < |b| ==> b[i] == b[1..][i - 1];
      assert IsTop(b, t + 1) && Pow2(t + 1) == 2 * Pow2(t);
    } else {
      NoneSet(b[1..]);
      assert forall i :: 0 < i < |b| ==> b[i] == b[1..][i - 1];
      assert IsTop(b, 0);
    }
  }

  lemma {:induction false} NoneSet(b: Bits)
    requires Value(b) == 0
    ensures forall i :: 0 <= i < |b| ==> !b[i]
  {
    if b != [] {
      NoneSet(b[1..]);
      assert forall i :: 0 < i < |b| ==> b[i] == b[1..][i - 1];
    }
  }

  /** All bits up to the t-th and no others are set. */
  lemma {:induction false} ValueOfOnes(c: Bits, t: int)
    requires -1 <= t < |c| && forall i :: 0 <= i < |c| ==> (c[i] <==> i <= t)
    ensures Value(c) + 1 == Pow2(t + 1)
  {
    if c != [] {
      assert forall i :: 0 <= i < |c| - 1 ==> c[1..][i] == c[i + 1];
      if t == -1 {
        ValueOfOnes(c[1..], -1);
      } else {
        ValueOfOnes(c[1..], t - 1);
      }
    }
  }

  lemma {:induction false} Pow2Of32()
    ensures Pow2(16) == 65536 && Pow2(31) == 2147483648 && Pow2(32) == 4294967296
  {
    assert Pow2(8) == 256;
    Pow2Sum(8, 8);
    Pow2Sum(16, 8);
    Pow2Sum(24, 7);
    assert Pow2(7) == 128;
  }

  lemma {:induction false} Pow2Monotone(j: nat, k: nat)
    requires j <= k
    ensures Pow2(j) <= Pow2(k)
  {
    if j < k {
      Pow2Monotone(j, k - 1);
    }
  }

  lemma {:induction false} Pow2Sum(j: nat, k: nat)
    ensures Pow2(j + k) == Pow2(j) * Pow2(k)
  {
    if k > 0 {
      Pow2Sum(j, k - 1);
      TimesTwice(Pow2(j), Pow2(k - 1));
    }
  }

  lemma TimesTwice(p: nat, q: nat)
    ensures p * (2 * q) == 2 * (p * q)
  {
  }

  /** When every bit with a set bit at or above it is set, the value is one less than twice a power of two. */
  lemma CoveredValue(e: Bits, z: Bits)
    requires |z| <= 32 && Covers(e, z, 32)
    ensures Value(z) == 0 ==> Value(e) == 0
    ensures Value(z) > 0 ==> exists t: nat :: t < 32 && Pow2(t) <= Value(z) < 2 * Pow2(t) && Value(e) + 1 == 2 * Pow2(t)
  {
    if Value(z) == 0 {
      NoneSet(z);
      assert forall i: nat :: i < |e| ==> (e[i] <==> AnySet(z, i, 32));
      ValueOfOnes(e, -1);
    } else {
      TopExists(z);
      var t: nat :| IsTop(z, t) && Pow2(t) <= Value(z) < 2 * Pow2(t);
      forall i: nat | i < |z|
        ensures e[i] <==> i <= t
      {
        assert e[i] <==> AnySet(z, i, 32);
      }
      ValueOfOnes(e, t);
      assert Pow2(t + 1) == 2 * Pow2(t);
    }
  }

  lemma OneCovers(b: Bits)
    ensures Covers(b, b, 1)
  {
    forall i: nat | i < |b|
      ensures b[i] <==> AnySet(b, i, 1)
    {
    }
  }

  ghost predicate IsSize(n: nat) {
    exists k: nat :: k < 31 && n == Pow2(k)
  }

  /** The result is the largest power of two not above n exactly when n is neither 0 nor as large as 2^31; otherwise it
      is 0. */
  ghost predicate RoundsDown(n: nat, r: nat) {
    && (1 <= n < 2147483648 <==> IsSize(r) && r <= n < 2 * r)
    && (!(1 <= n < 2147483648) ==> r == 0)
  }

  lemma HalvedValue(n: nat, v: nat)
    requires n == 0 ==> v == 0
    requires n > 0 ==> exists t: nat :: t < 32 && Pow2(t) <= n < 2 * Pow2(t) && v + 1 == 2 * Pow2(t)
    ensures RoundsDown(n, (v + 1) % 4294967296 / 2)
  {
    if n > 0 {
      var t: nat :| t < 32 && Pow2(t) <= n < 2 * Pow2(t) && v + 1 == 2 * Pow2(t);
      LargestSize(n, t, v);
    }
  }

  lemma LargestSize(n: nat, t: nat, v: nat)
    requires t < 32 && Pow2(t) <= n < 2 * Pow2(t) && v + 1 == 2 * Pow2(t)
    ensures RoundsDown(n, (v + 1) % 4294967296 / 2)
  {
    HalfOf(n, t);
    if t < 31 {
      assert IsSize(Pow2(t));
    }
  }

  /** rounddown_pow_of_two */
  method RoundDown(n: nat) returns (r: nat)
    requires n < 4294967296
    ensures RoundsDown(n, r)
  {
    var z := Split(n);
    var e := SmearAll(z);
    CoveredValue(e, z);
    r := (Value(e) + 1) % 4294967296 / 2;
    HalvedValue(n, Value(e));
  }

  method Split(n: nat) returns (z: Bits)
    requires n < 4294967296
    ensures |z| == 32 && Value(z) == n
  {
    z := ToBits(n, 32);
    Pow2Of32();
    ValueToBits(n, 32);
  }

  /** The five shifts */
  method SmearAll(z: Bits) returns (e: Bits)
    ensures Covers(e, z, 32)
  {
    OneCovers(z);
    SmearCovers(z, z, 1);
    e := Smeared(z, 1);
    SmearCovers(e, z, 2);
    e := Smeared(e, 2);
    SmearCovers(e, z, 4);
    e := Smeared(e, 4);
    SmearCovers(e, z, 8);
    e := Smeared(e, 8);
    SmearCovers(e, z, 16);
    e := Smeared(e, 16);
  }

  lemma HalfOf(n: nat, t: nat)
    requires t < 32 && Pow2(t) <= n < 2 * Pow2(t)
    ensures 1 <= n && (n < 2147483648 <==> t < 31)
    ensures 2 * Pow2(t) % 4294967296 / 2 == if t < 31 then Pow2(t) else 0
  {
    Pow2Of32();
    if t < 31 {
      Pow2Monotone(t, 30);
      assert Pow2(31) == 2 * Pow2(30);
      HalfOfTwice(Pow2(t));
    } else {
      HalfOfTwice(Pow2(t));
    }
  }

  lemma HalfOfTwice(p: nat)
    requires p <= 2147483648
    ensures 2 * p % 4294967296 / 2 == if p < 2147483648 then p else 0
  {
  }

  // The buffer

  class RingBuffer<T> {
    const data: array<T>
    const size: nat      // mask + 1
    var inCount: nat     // in
    var outCount: nat    // out
    ghost var items: seq<T>

    ghost predicate Valid()
      reads this, data
    {
      && IsSize(size) && 0 < size <= data.Length && |items| <= size
      && InStep(inCount, outCount, |items|) && Holds(data, outCount % size, items, size)
    }

    /** ringbuffer_init on memory for n items */
    constructor (data: array<T>)
      requires 1 <= data.Length < 2147483648
      ensures Valid() && items == [] && this.data == data && size <= data.Length < 2 * size
    {
      var n := RoundDown(data.Length);
      this.data, this.size := data, n;
      inCount, outCount, items := 0, 0, [];
    }

    /** ringbuffer_len */
    function Len(): nat
      reads this
    {
      (inCount - outCount) % 4294967296
    }

    lemma LenIs()
      requires Valid()
      ensures Len() == |items|
    {
      SizeFitsWord(size);
      Difference(outCount, |items|);
    }

    /** ringbuffer_copy_in: the items from `at` on, around the end of the array */
    method CopyIn(src: seq<T>, at: nat, ghost head: nat, ghost s: seq<T>)
      requires 0 < size <= data.Length && head < size && |s| + |src| <= size && at == Slot(head, |s|, size)
      requires Holds(data, head, s, size) && at < size
      modifies data
      ensures Holds(data, head, s + src, size)
    {
      var l := if |src| < size - at then |src| else size - at;
      CopySeq(src[..l], at);
      CopySeq(src[l..], 0);
      forall i: nat | i < |s| + |src|
        ensures data[Slot(head, i, size)] == (s + src)[i]
      {
        SlotApart(head, |s|, i, l, |src|, size);
      }
    }

    /** memcpy */
    method CopySeq(src: seq<T>, to: nat)
      requires to + |src| <= data.Length
      modifies data
      ensures forall i :: 0 <= i < data.Length ==> data[i] == if to <= i < to + |src| then src[i - to] else old(data[i])
    {
      for k := 0 to |src|
        invariant forall i :: 0 <= i < data.Length ==> data[i] == if to <= i < to + k then src[i - to] else old(data[i])
      {
        data[to + k] := src[k];
      }
    }

    /** ringbuffer_in */
    method In(src: seq<T>) returns (n: nat)
      requires Valid() && |src| < 4294967296
      modifies this`inCount, this`items, data
      ensures Valid() && n == Min(|src|, size - |old(items)|) && items == old(items) + src[..n]
    {
      LenIs();
      var avail := size - Len();
      n := if |src| > avail then avail else |src|;
      Append(src[..n]);
    }

    method Append(part: seq<T>)
      requires Valid() && |items| + |part| <= size
      modifies this`inCount, this`items, data
      ensures Valid() && items == old(items) + part
    {
      WrappedSlot(outCount, |items|, size);
      CopyIn(part, inCount % size, outCount % size, items);
      StepIn(inCount, outCount, |items|, |part|);
      inCount := (inCount + |part|) % 4294967296;
      items := items + part;
    }

    /** ringbuffer_out_peek */
    method Peek(n: nat) returns (dst: seq<T>)
      requires Valid()
      ensures dst == items[..Min(n, |items|)]
    {
      LenIs();
      var l := Len();
      var len := if n > l then l else n;
      dst := CopyOut(outCount % size, len, items);
    }

    /** ringbuffer_copy_out */
    method CopyOut(at: nat, len: nat, ghost s: seq<T>) returns (dst: seq<T>)
      requires at < size <= data.Length && Holds(data, at, s, size) && len <= |s|
      ensures dst == s[..len]
    {
      var l := if len < size - at then len else size - at;
      dst := data[at..at + l] + data[..len - l];
      forall i: nat | i < len
        ensures dst[i] == s[i]
      {
        assert data[Slot(at, i, size)] == s[i];
      }
    }

    /** ringbuffer_out */
    method Out(n: nat) returns (dst: seq<T>)
      requires Valid()
      modifies this`outCount, this`items
      ensures Valid() && dst == old(items)[..Min(n, |old(items)|)] && items == old(items)[Min(n, |old(items)|)..]
    {
      dst := Peek(n);
      ghost var k := |dst|;
      WrappedSlot(outCount, k, size);
      HoldsRest(data, outCount % size, items, size, k);
      StepOut(inCount, outCount, |items|, k);
      ghost var rest, head := items[k..], (outCount + k) % 4294967296;
      assert InStep(inCount, head, |rest|) && Holds(data, head % size, rest, size);
      outCount := (outCount + |dst|) % 4294967296;
      items := rest;
    }
  }

  /** Both counters are 32-bit, and so many items lie between them. */
  ghost predicate InStep(inCount: nat, outCount: nat, len: nat) {
    inCount < 4294967296 && outCount < 4294967296 && inCount == (outCount + len) % 4294967296
  }

  /** The items lie from `head` on, around the end of the ring. */
  ghost predicate Holds<T>(data: array<T>, head: nat, s: seq<T>, size: nat)
    reads data
  {
    && head < size <= data.Length && |s| <= size
    && forall i: nat {:trigger s[i]} :: i < |s| ==> data[Slot(head, i, size)] == s[i]
  }

  lemma HoldsRest<T>(data: array<T>, head: nat, s: seq<T>, size: nat, k: nat)
    requires Holds(data, head, s, size) && k <= |s|
    ensures Holds(data, Slot(head, k, size), s[k..], size)
  {
    forall i: nat | i < |s| - k
      ensures data[Slot(Slot(head, k, size), i, size)] == s[k..][i]
    {
      assert data[Slot(head, k + i, size)] == s[k + i];
    }
  }

  /** The place of the i-th of len + n items, when the last n of them go to `at` on, l before the end of the ring. */
  lemma SlotApart(head: nat, len: nat, i: nat, l: nat, n: nat, size: nat)
    requires head < size && len + n <= size && i < len + n
    requires l == if n < size - Slot(head, len, size) then n else size - Slot(head, len, size)
    requires Slot(head, len, size) < size
    ensures var at, p := Slot(head, len, size), Slot(head, i, size);
            if i < len then !(at <= p < at + l) && !(0 <= p < n - l)
            else if i < len + l then p == at + (i - len) && !(0 <= p < n - l) else p == i - len - l
  {
  }

  lemma StepIn(inCount: nat, outCount: nat, len: nat, n: nat)
    requires InStep(inCount, outCount, len)
    ensures InStep((inCount + n) % 4294967296, outCount, len + n)
  {
    ModAbsorbs(outCount + len, n, 4294967296);
  }

  lemma StepOut(inCount: nat, outCount: nat, len: nat, k: nat)
    requires InStep(inCount, outCount, len) && k <= len
    ensures InStep(inCount, (outCount + k) % 4294967296, len - k)
  {
    ModAbsorbs(outCount + k, len - k, 4294967296);
  }

  lemma WrappedSlot(x: nat, len: nat, size: nat)
    requires IsSize(size) && len <= size
    ensures size > 0 && (x + len) % 4294967296 % size == Slot(x % size, len, size)
  {
    SizeFitsWord(size);
    var m: nat :| m > 0 && size * m == 4294967296;
    ModMod(x + len, size, m);
    ModAbsorbs(x, len, size);
    SlotIsModular(x % size, len, size);
  }

  lemma SizeFitsWord(n: nat)
    requires IsSize(n)
    ensures 0 < n < 4294967296 && exists m: nat :: m > 0 && n * m == 4294967296
  {
    var k: nat :| k < 31 && n == Pow2(k);
    Pow2Of32();
    Pow2Sum(k, 32 - k);
    Pow2Monotone(k, 31);
    assert n * Pow2(32 - k) == 4294967296;
  }

  /** Counters that have wrapped still differ by what lies between them. */
  lemma Difference(x: nat, d: nat)
    requires x < 4294967296 && d < 4294967296
    ensures ((x + d) % 4294967296 - x) % 4294967296 == d
  {
  }

  // Runs

  datatype Op<T> = Put(src: seq<T>) | Take(n: nat) | Look(n: nat)

  /** What a call lets into the buffer, what it hands out, and what is then left. */
  function Accepted<T>(s: seq<T>, op: Op<T>, size: nat): seq<T>
    requires |s| <= size
  {
    if op.Put? then op.src[..Min(|op.src|, size - |s|)] else []
  }

  function Handed<T>(s: seq<T>, op: Op<T>): seq<T> {
    if op.Put? then [] else s[..Min(op.n, |s|)]
  }

  function Left<T>(s: seq<T>, op: Op<T>, size: nat): (r: seq<T>)
    requires |s| <= size
    ensures |r| <= size
  {
    if op.Take? then s[Min(op.n, |s|)..] else s + Accepted(s, op, size)
  }

  function LeftAfter<T>(s: seq<T>, ops: seq<Op<T>>, size: nat): (r: seq<T>)
    requires |s| <= size
    ensures |r| <= size
    decreases |ops|
  {
    if ops == [] then s else LeftAfter(Left(s, ops[0], size), ops[1..], size)
  }

  function AllAccepted<T>(s: seq<T>, ops: seq<Op<T>>, size: nat): seq<T>
    requires |s| <= size
    decreases |ops|
  {
    if ops == [] then [] else Accepted(s, ops[0], size) + AllAccepted(Left(s, ops[0], size), ops[1..], size)
  }

  /** All that has been taken, in order; looking takes nothing. */
  function AllTaken<T>(s: seq<T>, ops: seq<Op<T>>, size: nat): seq<T>
    requires |s| <= size
    decreases |ops|
  {
    if ops == [] then []
    else (if ops[0].Take? then Handed(s, ops[0]) else []) + AllTaken(Left(s, ops[0], size), ops[1..], size)
  }

  /** First in, first out: what was taken, followed by what is left, is what was there and was accepted, in order. */
  lemma {:induction false} RunIsFifo<T>(s: seq<T>, ops: seq<Op<T>>, size: nat)
    requires |s| <= size
    ensures s + AllAccepted(s, ops, size) == AllTaken(s, ops, size) + LeftAfter(s, ops, size)
    decreases |ops|
  {
    if ops != [] {
      var op, rest := ops[0], Left(s, ops[0], size);
      RunIsFifo(rest, ops[1..], size);
      var taken := if op.Take? then Handed(s, op) else [];
      StepIsFifo(s, op, size);
      Regroup(s, Accepted(s, op, size), AllAccepted(rest, ops[1..], size));
      Regroup(taken, rest, AllAccepted(rest, ops[1..], size));
      Regroup(taken, AllTaken(rest, ops[1..], size), LeftAfter(rest, ops[1..], size));
    }
  }

  lemma StepIsFifo<T>(s: seq<T>, op: Op<T>, size: nat)
    requires |s| <= size
    ensures s + Accepted(s, op, size) == (if op.Take? then Handed(s, op) else []) + Left(s, op, size)
  {
  }

  /** One call, as the specification has it. */
  method Do<T>(r: RingBuffer<T>, op: Op<T>) returns (handed: seq<T>)
    requires r.Valid() && (op.Put? ==> |op.src| < 4294967296)
    modifies r, r.data
    ensures r.Valid() && handed == Handed(old(r.items), op) && r.items == Left(old(r.items), op, r.size)
  {
    handed := [];
    match op {
      case Put(src) => var n := r.In(src);
      case Take(n) => handed := r.Out(n);
      case Look(n) => handed := r.Peek(n);
    }
  }

  /** A run on the buffer, however often its counters wrap. */
  method Run<T>(r: RingBuffer<T>, ops: seq<Op<T>>) returns (taken: seq<T>)
    requires r.Valid() && r.items == [] && forall op :: op in ops && op.Put? ==> |op.src| < 4294967296
    modifies r, r.data
    ensures r.Valid() && r.items == LeftAfter([], ops, r.size) && taken == AllTaken([], ops, r.size)
  {
    taken := [];
    for k := 0 to |ops|
      invariant r.Valid()
      invariant LeftAfter([], ops, r.size) == LeftAfter(r.items, ops[k..], r.size)
      invariant AllTaken([], ops, r.size) == taken + AllTaken(r.items, ops[k..], r.size)
    {
      assert ops[k..][0] == ops[k] && ops[k..][1..] == ops[k + 1..];
      ghost var s := r.items;
      var handed := Do(r, ops[k]);
      ghost var more := AllTaken(r.items, ops[k + 1..], r.size);
      var gained := if ops[k].Take? then handed else [];
      assert AllTaken(s, ops[k..], r.size) == gained + more;
      Regroup(taken, gained, more);
      taken := taken + gained;
    }
    assert ops[|ops|..] == [];
  }
}
