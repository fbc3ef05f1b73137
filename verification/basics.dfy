/** What several modules use: options, bytes and entries, sequences without repetitions, powers of two, and small
    facts on quotients and remainders by a variable, places in a ring, and sizes of finite sets. */
module Basics {
  datatype Option<T> = None | Some(value: T)

  newtype Byte = b: int | 0 <= b < 256

  datatype Entry<K, V> = Entry(key: K, value: V)

  ghost predicate DistinctKeys<K, V>(es: seq<Entry<K, V>>) {
    forall i, j :: 0 <= i < j < |es| ==> es[i].key != es[j].key
  }

  ghost predicate Distinct<X>(s: seq<X>) {
    forall a, b :: 0 <= a < b < |s| ==> s[a] != s[b]
  }

  function Min(a: nat, b: nat): nat {
    if a < b then a else b
  }

  function Max(a: nat, b: nat): nat {
    if a < b then b else a
  }

  function Pow2(m: nat): (p: nat)
    ensures p >= 1
  {
    if m == 0 then 1 else 2 * Pow2(m - 1)
  }

  lemma Regroup<T>(a: seq<T>, b: seq<T>, c: seq<T>)
    ensures (a + b) + c == a + (b + c)
  {
  }

  lemma ModAbsorbs(x: nat, y: nat, n: nat)
    requires n > 0
    ensures (x + y) % n == (x % n + y) % n
  {
    var q := x / n;
    assert x == n * q + x % n;
    AddMultiple(x % n + y, q, n);
  }

  lemma {:induction false} AddMultiple(a: nat, q: nat, n: nat)
    requires n > 0
    ensures (a + n * q) % n == a % n
  {
    var c := a / n;
    assert a + n * q == n * (c + q) + a % n;
    UniqueRemainder(a + n * q, c + q, a % n, n);
  }

  lemma MultipleSize(d: int, q: int)
    requires d > 0
    ensures q >= 1 ==> d * q >= d
    ensures q <= -1 ==> d * q <= -d
  {
    assert d * q == d * (q - 1) + d == d * (q + 1) - d;
  }

  lemma UniqueRemainder(x: int, q: int, r: int, n: int)
    requires n > 0 && x == n * q + r && 0 <= r < n
    ensures x % n == r && x / n == q
  {
    var q' := x / n;
    assert x == n * q' + x % n;
    assert n * (q - q') == n * q - n * q';
    MultipleSize(n, q - q');
  }

  lemma ModMod(x: nat, n: nat, m: nat)
    requires n > 0 && m > 0
    ensures n * m > 0 && x % (n * m) % n == x % n
  {
    var q, r := x / (n * m), x % (n * m);
    assert x == (n * m) * q + r;
    assert (n * m) * q == n * (m * q);
    AddMultiple(r, m * q, n);
  }

  /** The place of the i-th element in a ring of that many places. */
  function Slot(head: nat, i: nat, cap: nat): nat
    requires head < cap && i <= cap
  {
    if head + i < cap then head + i else head + i - cap
  }

  lemma SlotIsModular(head: nat, i: nat, cap: nat)
    requires head < cap && i <= cap
    ensures Slot(head, i, cap) == (head + i) % cap
  {
    UniqueRemainder(head + i, if head + i < cap then 0 else 1, Slot(head, i, cap), cap);
  }

  lemma SubsetSize<T>(a: set<T>, b: set<T>)
    requires a <= b
    ensures |a| <= |b|
  {
    assert b == a + (b - a);
  }
}
