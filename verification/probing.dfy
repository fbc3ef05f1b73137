/** The order in which stb_ds visits the slots of its open-addressing index.

    A table has n slots, n a power of two, grouped in buckets of eight.  A probe
    starts at the home slot, walks its bucket from there to the end and then from
    the start of the bucket back to the home offset, and moves on to the bucket
    that lies 1, 2, 3, ... buckets further.  Nothing in the code bounds these
    loops; what bounds them is that the visit order is a permutation of the slots. */
module Probing {
  import opened Basics

  // STBDS_BUCKET_LENGTH is 8; it is written out so that the arithmetic below stays linear.

  ghost predicate IsSlotCount(n: nat) {
    exists m: nat :: n == 8 * Pow2(m)
  }

  predicate WholeBuckets(n: nat) {
    n >= 8 && n % 8 == 0
  }

  /** Bucket displacement after r rounds: 0, 1, 3, 6, ... */
  function Triangle(r: nat): nat {
    if r == 0 then 0 else Triangle(r - 1) + r
  }

  /** The bucket that round r of a probe from slot `home` looks at. */
  function ProbeBucket(home: nat, n: nat, r: nat): (b: nat)
    requires WholeBuckets(n)
    ensures b < n / 8
  {
    (home / 8 + Triangle(r)) % (n / 8)
  }

  /** The k-th slot that a probe from slot `home` of an n-slot table looks at. */
  function ProbeSlot(home: nat, n: nat, k: nat): (s: nat)
    requires WholeBuckets(n)
    ensures s < n
  {
    var offset := home % 8 + k % 8;
    8 * ProbeBucket(home, n, k / 8) + (if offset < 8 then offset else offset - 8)
  }

  // ----- triangular numbers modulo a power of two

  /** Multiplication by repeated addition; it keeps the proofs below linear. */
  ghost function Times(x: nat, y: nat): nat {
    if x == 0 then 0 else Times(x - 1, y) + y
  }

  lemma {:induction false} TimesSuccessor(x: nat, y: nat)
    ensures Times(x, y + 1) == Times(x, y) + x
  {
    if x > 0 {
      TimesSuccessor(x - 1, y);
    }
  }

  lemma {:induction false} TimesCommutes(x: nat, y: nat)
    ensures Times(x, y) == Times(y, x)
  {
    if x > 0 {
      TimesCommutes(x - 1, y);
      TimesSuccessor(y, x - 1);
    } else if y > 0 {
      TimesCommutes(x, y - 1);
    }
  }

  lemma {:induction false} TimesDoubled(x: nat, z: nat)
    ensures Times(x, 2 * z) == 2 * Times(x, z)
  {
    if x > 0 {
      TimesDoubled(x - 1, z);
    }
  }

  lemma {:induction false} TimesParity(x: nat, y: nat)
    requires y % 2 == 1
    ensures Times(x, y) % 2 == x % 2
  {
    if x > 0 {
      TimesParity(x - 1, y);
    }
  }

  /** Twice a difference of triangular numbers is a product of an odd and an even number. */
  lemma {:induction false} TriangleDifference(a: nat, b: nat)
    requires b <= a
    ensures 2 * (Triangle(a) - Triangle(b)) == Times(a - b, a + b + 1)
  {
    if b < a {
      TriangleDifference(a - 1, b);
      TimesSuccessor(a - 1 - b, a + b);
    }
  }

  /** 2^m divides x. */
  ghost predicate Pow2Divides(m: nat, x: int) {
    m == 0 || (x % 2 == 0 && Pow2Divides(m - 1, x / 2))
  }

  lemma {:induction false} MultipleOfPow2(m: nat, q: int)
    ensures Pow2Divides(m, Pow2(m) * q)
  {
    if m > 0 {
      MultipleOfPow2(m - 1, q);
      TwiceTimes(Pow2(m - 1), q);
    }
  }

  lemma TwiceTimes(p: int, q: int)
    ensures (2 * p * q) % 2 == 0 && (2 * p * q) / 2 == p * q
  {
    var y := p * q;
    assert 2 * p * q == 2 * y;
  }

  /** An odd factor contributes nothing to divisibility by a power of two. */
  lemma {:induction false} OddFactor(m: nat, x: nat, y: nat)
    requires x % 2 == 1 && Pow2Divides(m, Times(x, y))
    ensures Pow2Divides(m, y)
  {
    if m > 0 {
      if y % 2 == 1 {
        TimesParity(x, y);
      }
      TimesDoubled(x, y / 2);
      OddFactor(m - 1, x, y / 2);
    }
  }

  lemma {:induction false} SmallMultipleIsZero(m: nat, x: nat)
    requires Pow2Divides(m, x) && x < Pow2(m)
    ensures x == 0
  {
    if m > 0 {
      SmallMultipleIsZero(m - 1, x / 2);
    }
  }

  lemma CongruentDifference(a: int, b: int, m: nat)
    requires a % Pow2(m) == b % Pow2(m)
    ensures Pow2Divides(m, a - b)
  {
    var d := Pow2(m);
    var q := a / d - b / d;
    assert a - b == d * q;
    MultipleOfPow2(m, q);
  }

  /** Rounds 0 .. 2^m - 1 displace the home bucket by pairwise different amounts modulo 2^m. */
  lemma TrianglesDistinct(m: nat, a: nat, b: nat, base: nat)
    requires a < Pow2(m) && b < Pow2(m)
    requires (base + Triangle(a)) % Pow2(m) == (base + Triangle(b)) % Pow2(m)
    ensures a == b
  {
    CongruentDifference(base + Triangle(a), base + Triangle(b), m);
    CongruentDifference(base + Triangle(b), base + Triangle(a), m);
    if a < b {
      TrianglesDistinctOrdered(m, b, a);
    } else {
      TrianglesDistinctOrdered(m, a, b);
    }
  }

  lemma TrianglesDistinctOrdered(m: nat, a: nat, b: nat)
    requires b <= a < Pow2(m) && Pow2Divides(m, Triangle(a) - Triangle(b))
    ensures a == b
  {
    var x, y := a - b, a + b + 1;
    TriangleDifference(a, b);
    TwiceDivides(m, Triangle(a) - Triangle(b), Times(x, y));
    if x % 2 == 1 {
      OddFactor(m + 1, x, y);
      SmallMultipleIsZero(m + 1, y);
    } else {
      TimesCommutes(x, y);
      OddAndEven(x, y, a);
      OddFactor(m + 1, y, x);
      SmallMultipleIsZero(m + 1, x);
    }
  }

  lemma TwiceDivides(m: nat, x: int, twice: int)
    requires Pow2Divides(m, x) && twice == 2 * x
    ensures Pow2Divides(m + 1, twice)
  {
    assert twice / 2 == x;
  }

  lemma OddAndEven(x: nat, y: nat, a: nat)
    requires x + y == 2 * a + 1 && x % 2 == 0
    ensures y % 2 == 1
  {
  }

  // ----- the probe order is a permutation

  lemma ProbeSlotInjective(home: nat, n: nat, j: nat, k: nat)
    requires IsSlotCount(n) && WholeBuckets(n) && j < n && k < n
    requires ProbeSlot(home, n, j) == ProbeSlot(home, n, k)
    ensures j == k
  {
    var m: nat :| n == 8 * Pow2(m);
    assert ProbeBucket(home, n, j / 8) == ProbeBucket(home, n, k / 8) && j % 8 == k % 8;
    TrianglesDistinct(m, j / 8, k / 8, home / 8);
  }

  ghost function Below(n: nat): (b: set<nat>)
    ensures |b| == n
    ensures forall i: nat :: i in b <==> i < n
  {
    if n == 0 then {} else Below(n - 1) + {n - 1}
  }

  ghost function Elements(p: seq<nat>): set<nat> {
    set x | x in p
  }

  lemma {:induction false} DistinctElements(p: seq<nat>)
    requires forall i, j :: 0 <= i < j < |p| ==> p[i] != p[j]
    ensures |Elements(p)| == |p|
  {
    if p != [] {
      DistinctElements(p[1..]);
      assert Elements(p) == Elements(p[1..]) + {p[0]};
    }
  }

  /** n different numbers below n are all the numbers below n. */
  lemma Pigeonhole(p: seq<nat>, s: nat)
    requires forall i, j :: 0 <= i < j < |p| ==> p[i] != p[j]
    requires forall i :: 0 <= i < |p| ==> p[i] < |p|
    requires s < |p|
    ensures s in p
  {
    DistinctElements(p);
    if s !in p {
      assert Elements(p) + {s} <= Below(|p|);
      SubsetSize(Elements(p) + {s}, Below(|p|));
    }
  }

  lemma SlotCountFacts(n: nat)
    requires IsSlotCount(n)
    ensures WholeBuckets(n)
  {
    var m: nat :| n == 8 * Pow2(m);
  }

  /** Within n steps a probe looks at every slot of the table, so it meets the empty one. */
  lemma ProbeReaches(home: nat, n: nat, s: nat) returns (k: nat)
    requires IsSlotCount(n) && s < n
    ensures WholeBuckets(n) && k < n && ProbeSlot(home, n, k) == s
  {
    SlotCountFacts(n);
    var p := seq(n, k requires 0 <= k < n => ProbeSlot(home, n, k));
    forall i, j | 0 <= i < j < n
      ensures p[i] != p[j]
    {
      if p[i] == p[j] {
        ProbeSlotInjective(home, n, i, j);
      }
    }
    Pigeonhole(p, s);
    k :| k < |p| && p[k] == s;
  }

  /** `pos` is where the loops stand in round r of a probe from slot `home`. */
  ghost predicate AtRound(home: nat, n: nat, r: nat, pos: nat)
    requires WholeBuckets(n)
  {
    pos == 8 * ProbeBucket(home, n, r) + home % 8
  }

  lemma FirstRound(home: nat, n: nat)
    requires WholeBuckets(n) && home < n
    ensures AtRound(home, n, 0, home)
  {
    UniqueRemainder(home / 8, 0, home / 8, n / 8);
  }

  /** The loop body `pos += step; step += 8; pos &= n - 1` moves on by one round. */
  lemma NextRound(home: nat, n: nat, r: nat, pos: nat, step: nat)
    requires WholeBuckets(n) && AtRound(home, n, r, pos) && step == 8 * (r + 1)
    ensures AtRound(home, n, r + 1, (pos + step) % n)
  {
    var buckets := n / 8;
    var b := ProbeBucket(home, n, r);
    var x := b + r + 1;
    ModAbsorbs(home / 8 + Triangle(r), r + 1, buckets);
    var q := x / buckets;
    assert x == buckets * q + x % buckets;
    assert 8 * x + home % 8 == n * q + (8 * (x % buckets) + home % 8) by {
      assert 8 * (buckets * q) == n * q;
    }
    UniqueRemainder(8 * x + home % 8, q, 8 * (x % buckets) + home % 8, n);
  }

  /** Entry i of the bucket at position `pos` is probe number 8r + (i - home) mod 8. */
  lemma ProbeOfEntry(home: nat, n: nat, r: nat, pos: nat, i: nat)
    requires WholeBuckets(n) && AtRound(home, n, r, pos) && i < 8
    ensures var k := 8 * r + (if i >= pos % 8 then i - pos % 8 else 8 - pos % 8 + i);
            k >= 0 && ProbeSlot(home, n, k) == pos - pos % 8 + i
  {
    SplitIndex(ProbeBucket(home, n, r), home % 8);
    SplitIndex(r, if i >= pos % 8 then i - pos % 8 else 8 - pos % 8 + i);
  }

  lemma SplitIndex(q: nat, r: nat)
    requires r < 8
    ensures (8 * q + r) / 8 == q && (8 * q + r) % 8 == r
  {
  }
}
