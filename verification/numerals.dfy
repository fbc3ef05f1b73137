/** The integer conversion of stb_sprintf: a 64-bit value is written right to left in chunks of eight digits, two digits
    at a time without commas and one at a time with them. */
module Numerals {
  import opened Basics

  // Decimal numerals

  function DigitChar(d: nat): char
    requires d < 10
  {
    '0' + d as char
  }

  function DigitValue(c: char): int {
    c as int - '0' as int
  }

  predicate IsDigit(c: char) {
    '0' <= c <= '9'
  }

  /** The canonical numeral: no leading zeros. */
  function Decimal(n: nat): string {
    if n < 10 then [DigitChar(n)] else Decimal(n / 10) + [DigitChar(n % 10)]
  }

  function Length(n: nat): nat {
    if n < 10 then 1 else Length(n / 10) + 1
  }

  predicate AllDigits(s: string) {
    forall i :: 0 <= i < |s| ==> IsDigit(s[i])
  }

  /** The value of a string of digits. */
  function Parse(s: string): nat
    requires AllDigits(s)
  {
    if s == [] then 0 else 10 * Parse(s[..|s| - 1]) + DigitValue(s[|s| - 1])
  }

  predicate Canonical(s: string) {
    s != [] && AllDigits(s) && (|s| > 1 ==> s[0] != '0')
  }

  lemma {:induction false} DecimalIsCanonical(n: nat)
    ensures Canonical(Decimal(n)) && Parse(Decimal(n)) == n && |Decimal(n)| == Length(n)
    ensures n > 0 ==> Decimal(n)[0] != '0'
  {
    if n >= 10 {
      DecimalIsCanonical(n / 10);
      assert Decimal(n)[..|Decimal(n)| - 1] == Decimal(n / 10);
    }
  }

  /** It is the only canonical numeral of its value. */
  lemma {:induction false} CanonicalIsDecimal(s: string)
    requires Canonical(s)
    ensures s == Decimal(Parse(s)) && (s[0] != '0' ==> Parse(s) > 0)
  {
    var front, last := s[..|s| - 1], s[|s| - 1];
    assert s == front + [last];
    if front != [] {
      CanonicalIsDecimal(front);
    } else {
      assert Parse(s) == DigitValue(last);
    }
  }

  // Digits of a number

  function Drop(n: nat, k: nat): nat
    decreases k
  {
    if k == 0 then n else Drop(n / 10, k - 1)
  }

  function DigitAt(n: nat, k: nat): nat
    ensures DigitAt(n, k) < 10
  {
    Drop(n, k) % 10
  }

  lemma {:induction false} DropDrop(n: nat, k: nat, j: nat)
    ensures Drop(Drop(n, k), j) == Drop(n, k + j)
    decreases k
  {
    if k > 0 {
      DropDrop(n / 10, k - 1, j);
    }
  }

  lemma DropNext(n: nat, k: nat)
    ensures Drop(n, k + 1) == Drop(n, k) / 10
  {
    DropDrop(n, k, 1);
    assert Drop(Drop(n, k), 1) == Drop(Drop(n, k) / 10, 0);
  }

  lemma {:induction false} DropMonotone(n: nat, k: nat, j: nat)
    requires k <= j && Drop(n, k) == 0
    ensures Drop(n, j) == 0
    decreases j
  {
    if k < j {
      DropMonotone(n, k, j - 1);
      DropNext(n, j - 1);
    }
  }

  function Ten(k: nat): nat
    ensures Ten(k) > 0
  {
    if k == 0 then 1 else 10 * Ten(k - 1)
  }

  /** Cutting one digit off commutes with cutting at a higher place. */
  lemma DivMod(n: nat, m: nat)
    requires m > 0
    ensures n % (10 * m) % 10 == n % 10 && n % (10 * m) / 10 == n / 10 % m && n / 10 / m == n / (10 * m)
  {
    var q, r := n / (10 * m), n % (10 * m);
    assert n == (10 * m) * q + r;
    var x := m * q;
    assert (10 * m) * q == 10 * x;
    assert n / 10 == x + r / 10;
    UniqueRemainder(n / 10, q, r / 10, m);
  }

  lemma {:induction false} DropDivides(n: nat, k: nat)
    ensures Drop(n, k) == n / Ten(k)
    decreases k
  {
    if k > 0 {
      DropDivides(n / 10, k - 1);
      DivMod(n, Ten(k - 1));
    }
  }

  /** The digits of a chunk are the lowest digits of the number it was cut from. */
  lemma {:induction false} ChunkDigit(n: nat, k: nat, j: nat)
    requires j < k
    ensures DigitAt(n % Ten(k), j) == DigitAt(n, j)
    decreases k
  {
    DivMod(n, Ten(k - 1));
    if j > 0 {
      ChunkDigit(n / 10, k - 1, j - 1);
    }
  }

  lemma TenToEight()
    ensures Ten(8) == 100000000
  {
    assert Ten(4) == 10000;
  }

  // The text as it grows to the left

  /** The lowest k digits, with a comma in front of every third when they are grouped and another digit follows. */
  function Written(n: nat, k: nat, grouped: bool): string {
    if k == 0 then []
    else [DigitChar(DigitAt(n, k - 1))] + (if grouped && k > 1 && (k - 1) % 3 == 0 then [','] else []) +
         Written(n, k - 1, grouped)
  }

  /** The whole numeral. */
  function Numeral(n: nat, grouped: bool): string {
    Written(n, Length(n), grouped)
  }

  lemma {:induction false} WrittenSplit(n: nat, k: nat)
    ensures Written(n, k + 1, false) == Written(n / 10, k, false) + [DigitChar(n % 10)]
  {
    if k > 0 {
      WrittenSplit(n, k - 1);
    }
  }

  /** Without commas it is the canonical numeral. */
  lemma {:induction false} PlainNumeral(n: nat)
    ensures Numeral(n, false) == Decimal(n)
  {
    if n < 10 {
      assert Written(n, 1, false) == [DigitChar(n)] + Written(n, 0, false);
    } else {
      PlainNumeral(n / 10);
      WrittenSplit(n, Length(n / 10));
    }
  }

  function WithoutCommas(s: string): string {
    if s == [] then [] else (if s[0] == ',' then [] else [s[0]]) + WithoutCommas(s[1..])
  }

  lemma {:induction false} CommasAreExtra(n: nat, k: nat)
    ensures WithoutCommas(Written(n, k, true)) == Written(n, k, false)
  {
    if k > 0 {
      CommasAreExtra(n, k - 1);
      var w, rest := Written(n, k, true), Written(n, k - 1, true);
      if k > 1 && (k - 1) % 3 == 0 {
        assert w[1..] == [','] + rest && w[1..][1..] == rest;
      } else {
        assert w[1..] == rest;
      }
    }
  }

  lemma {:induction false} WrittenLength(n: nat, k: nat, grouped: bool)
    ensures |Written(n, k, grouped)| == if grouped && k > 0 then k + (k - 1) / 3 else k
  {
    if k > 0 {
      WrittenLength(n, k - 1, grouped);
    }
  }

  /** Counted from the right, the commas are exactly at every fourth place. */
  lemma {:induction false} CommaPlaces(n: nat, k: nat, i: nat)
    requires i < |Written(n, k, true)|
    ensures Written(n, k, true)[|Written(n, k, true)| - 1 - i] == ',' <==> i % 4 == 3
  {
    var w, rest := Written(n, k, true), Written(n, k - 1, true);
    if i < |rest| {
      CommaPlaces(n, k - 1, i);
      assert w[|w| - 1 - i] == rest[|rest| - 1 - i];
    } else {
      WrittenLength(n, k - 1, true);
      PlaceOf(k, i);
      assert i == |rest| && k > 1 && (k - 1) % 3 == 0 ==> w[|w| - 1 - i] == ',';
      assert i == |w| - 1 ==> w[0] != ',';
    }
  }

  /** The places that the k-th digit and the comma behind it take. */
  lemma PlaceOf(k: nat, i: nat)
    requires k > 0 && i - (if k > 1 then k - 1 + (k - 2) / 3 else 0) <= (if k > 1 && (k - 1) % 3 == 0 then 1 else 0)
    requires i >= if k > 1 then k - 1 + (k - 2) / 3 else 0
    ensures i % 4 == 3 <==> k > 1 && (k - 1) % 3 == 0 && i == k - 1 + (k - 2) / 3
  {
    if k > 1 && (k - 1) % 3 == 0 {
      ThreesAndFours(k - 1);
    } else if k > 1 {
      BetweenCommas(k - 1);
    }
  }

  lemma ThreesAndFours(k: nat)
    requires k > 0 && k % 3 == 0
    ensures (k + (k - 1) / 3) % 4 == 3 && (k + (k - 1) / 3 + 1) % 4 == 0
  {
    var m := k / 3;
    assert k == 3 * m && (k - 1) / 3 == m - 1;
  }

  lemma BetweenCommas(k: nat)
    requires k > 0 && k % 3 != 0
    ensures (k + (k - 1) / 3) % 4 != 3
  {
    var m := k / 3;
    assert k == 3 * m + k % 3 && (k - 1) / 3 == m;
  }

  function Plain(n: nat, grouped: bool): (s: string)
    ensures AllDigits(s)
  {
    CommasAreExtra(n, Length(n));
    PlainNumeral(n);
    DecimalIsCanonical(n);
    if grouped then WithoutCommas(Numeral(n, grouped)) else Numeral(n, grouped)
  }

  /** What %d and %u print for any value, with or without the comma flag. */
  lemma NumeralReadsBack(n: nat, grouped: bool)
    ensures Numeral(n, grouped) != [] && Numeral(n, grouped)[0] != ',' && (n > 0 ==> Numeral(n, grouped)[0] != '0')
    ensures Canonical(Plain(n, grouped)) && Parse(Plain(n, grouped)) == n
  {
    CommasAreExtra(n, Length(n));
    PlainNumeral(n);
    DecimalIsCanonical(n);
    assert Numeral(n, grouped)[0] == DigitChar(DigitAt(n, Length(n) - 1)) == Numeral(n, false)[0];
  }

  // The conversion

  method Put(num: array<char>, s: nat, c: char) returns (s': nat)
    requires 0 < s <= num.Length
    modifies num
    ensures s' == s - 1 && num[s'..] == [c] + old(num[s..])
  {
    s' := s - 1;
    num[s'] := c;
  }

  /** How many digits have been written since the last comma. */
  function Since(k: nat): nat {
    if k == 0 then 0 else (k - 1) % 3 + 1
  }

  /** k digits have been written, and l counts those since the last comma when they are grouped; or a comma follows
      them. */
  ghost predicate Grouping(text: string, n: nat, k: nat, grouped: bool, l: nat, comma: bool) {
    if comma then grouped && k > 0 && k % 3 == 0 && l == 0 && text == [','] + Written(n, k, true)
    else (grouped ==> l == Since(k)) && text == Written(n, k, grouped)
  }

  lemma GroupingLength(text: string, n: nat, k: nat, grouped: bool, l: nat, comma: bool)
    requires Grouping(text, n, k, grouped, l, comma)
    ensures |text| <= 2 * k + 1
  {
    WrittenLength(n, k, grouped);
  }

  lemma CommaNext(n: nat, k: nat, text: string)
    requires Grouping(text, n, k, true, 3, false)
    ensures Grouping([','] + text, n, k, true, 0, true)
  {
  }

  lemma DigitNext(n: nat, k: nat, grouped: bool, l: nat, comma: bool, text: string)
    requires Grouping(text, n, k, grouped, l, comma) && !(grouped && l == 3)
    ensures Grouping([DigitChar(DigitAt(n, k))] + text, n, k + 1, grouped, l + 1, false)
  {
    var w := Written(n, k + 1, grouped);
    if comma {
      assert w == [DigitChar(DigitAt(n, k))] + [','] + Written(n, k, grouped);
    } else {
      assert w == [DigitChar(DigitAt(n, k))] + Written(n, k, grouped);
    }
  }

  /** The common step of the digit loops: the digit, or first the comma that is due. */
  method PutNext(num: array<char>, s: nat, l: nat, grouped: bool, c: char, ghost n: nat, ghost k: nat,
                 ghost comma: bool)
    returns (s': nat, l': nat, wrote: bool)
    requires 0 < s <= num.Length && Grouping(num[s..], n, k, grouped, l, comma) && c == DigitChar(DigitAt(n, k))
    modifies num
    ensures s' == s - 1 && wrote == !(grouped && l == 3)
    ensures Grouping(num[s'..], n, if wrote then k + 1 else k, grouped, l', !wrote)
  {
    if grouped && l == 3 {
      CommaNext(n, k, num[s..]);
      s' := Put(num, s, ',');
      return s', 0, false;
    }
    DigitNext(n, k, grouped, l, comma, num[s..]);
    s' := Put(num, s, c);
    return s', l + 1, true;
  }

  /** The chunk's digits continue those of the number. */
  ghost predicate Continues(n: nat, base: nat, chunk: nat) {
    && chunk < 100000000
    && forall j: nat {:trigger DigitAt(chunk, j)} :: j < 8 ==> DigitAt(n, base + j) == DigitAt(chunk, j)
  }

  lemma ChunkRunsOut(chunk: nat, j: nat)
    requires chunk < 100000000 && Drop(chunk, j) != 0
    ensures j < 8
  {
    DropDivides(chunk, 8);
    TenToEight();
    if j >= 8 {
      DropMonotone(chunk, 8, j);
    }
  }

  /** The two characters of the digit-pair table for a number below 100 */
  function Pair(k: nat): string
    requires k < 100
  {
    [DigitChar(k / 10), DigitChar(k % 10)]
  }

  lemma PairDigits(chunk: nat, j: nat)
    ensures DigitAt(chunk, j) == Drop(chunk, j) % 100 % 10 && DigitAt(chunk, j + 1) == Drop(chunk, j) % 100 / 10
    ensures Drop(chunk, j + 2) == Drop(chunk, j) / 100
  {
    DropNext(chunk, j);
    DropNext(chunk, j + 1);
    DivMod(Drop(chunk, j), 10);
  }

  lemma WrittenTwo(n: nat, k: nat, pair: string)
    requires pair == [DigitChar(DigitAt(n, k + 1)), DigitChar(DigitAt(n, k))]
    ensures Written(n, k + 2, false) == pair + Written(n, k, false)
  {
    assert Written(n, k + 1, false) == [pair[1]] + Written(n, k, false);
  }

  method PutPair(num: array<char>, s: nat, rest: nat, ghost chunk: nat, ghost j: nat, ghost tail: string)
    returns (s': nat, rest': nat)
    requires 2 <= s <= num.Length && num[s..] == Written(chunk, j, false) + tail && rest == Drop(chunk, j)
    modifies num
    ensures s' == s - 2 && rest' == Drop(chunk, j + 2) && num[s'..] == Written(chunk, j + 2, false) + tail
  {
    PairDigits(chunk, j);
    var pair := Pair(rest % 100);
    WrittenTwo(chunk, j, pair);
    s' := s - 2;
    num[s'] := pair[0];
    num[s' + 1] := pair[1];
    assert num[s'..] == pair + num[s..] && num[s..] == old(num[s..]);
    Regroup(pair, Written(chunk, j, false), tail);
    rest' := rest / 100;
  }

  /** Two digits at a time, until the chunk is used up. */
  method PutPairs(num: array<char>, s: nat, chunk: nat) returns (s': nat, ghost j: nat)
    requires 8 <= s <= num.Length && chunk < 100000000
    modifies num
    ensures 2 <= j <= 8 && s' == s - j && Drop(chunk, j) == 0
    ensures if chunk == 0 then j == 2 else Drop(chunk, j - 2) != 0
    ensures num[s'..] == Written(chunk, j, false) + old(num[s..])
  {
    ghost var tail := num[s..];
    var rest;
    s', rest := PutPair(num, s, chunk, chunk, 0, tail);
    j := 2;
    while rest != 0
      invariant (j == 2 || j == 4 || j == 6 || j == 8) && s' == s - j && rest == Drop(chunk, j)
      invariant if chunk == 0 then j == 2 else Drop(chunk, j - 2) != 0
      invariant num[s'..] == Written(chunk, j, false) + tail
      decreases 8 - j
    {
      ChunkRunsOut(chunk, j);
      s', rest := PutPair(num, s', rest, chunk, j, tail);
      j := j + 2;
    }
  }

  /** The digits of a chunk in front of those below it are digits of the number. */
  lemma {:induction false} ChunkWritten(n: nat, base: nat, chunk: nat, j: nat)
    requires Continues(n, base, chunk) && j <= 8
    ensures Written(chunk, j, false) + Written(n, base, false) == Written(n, base + j, false)
  {
    if j > 0 {
      ChunkWritten(n, base, chunk, j - 1);
      var d := [DigitChar(DigitAt(chunk, j - 1))];
      assert Written(chunk, j, false) == d + Written(chunk, j - 1, false);
      assert Written(n, base + j, false) == d + Written(n, base + j - 1, false);
    }
  }

  /** One round of the digit loop. */
  method PutDigit(num: array<char>, s: nat, l: nat, o: int, grouped: bool, rest: nat,
                  ghost n: nat, ghost base: nat, ghost chunk: nat, ghost j: nat, ghost comma: bool)
    returns (s': nat, l': nat, o': int, rest': nat, wrote: bool, ghost j': nat)
    requires num.Length == 512 && s <= 512 && s - o == 8 - j && base <= 16 && j < 8
    requires Continues(n, base, chunk) && rest == Drop(chunk, j) && Grouping(num[s..], n, base + j, grouped, l, comma)
    modifies num
    ensures s' == s - 1 && s' - o' == 8 - j' && (comma ==> wrote) && j' == (if wrote then j + 1 else j)
    ensures rest' == Drop(chunk, j') && Grouping(num[s'..], n, base + j', grouped, l', !wrote)
  {
    GroupingLength(num[s..], n, base + j, grouped, l, comma);
    DropNext(chunk, j);
    assert DigitAt(chunk, j) == rest % 10;
    s', l', wrote := PutNext(num, s, l, grouped, DigitChar(rest % 10), n, base + j, comma);
    if wrote {
      o', rest', j' := o, rest / 10, j + 1;
    } else {
      o', rest', j' := o - 1, rest, j;
    }
  }

  /** One digit at a time, until the rest of the chunk is used up. */
  method PutDigits(num: array<char>, s: nat, rest: nat, grouped: bool, l: nat, o: int,
                   ghost n: nat, ghost base: nat, ghost chunk: nat, ghost i: nat)
    returns (s': nat, l': nat, o': int, ghost j: nat)
    requires num.Length == 512 && s <= 512 && i <= 8 && base <= 16 && s - o == 8 - i
    requires Grouping(num[s..], n, base + i, grouped, l, false) && Continues(n, base, chunk) && rest == Drop(chunk, i)
    modifies num
    ensures s' <= 512 && i <= j <= 8 && s' - o' == 8 - j && Drop(chunk, j) == 0
    ensures if rest == 0 then j == i else i < j && Drop(chunk, j - 1) != 0
    ensures Grouping(num[s'..], n, base + j, grouped, l', false)
  {
    s', l', o', j := s, l, o, i;
    var rest', wrote := rest, true;
    ghost var before := 0;
    while rest' != 0
      invariant s' <= 512 && i <= j <= 8 && s' - o' == 8 - j && rest' == Drop(chunk, j)
      invariant if i == j then rest' == rest else rest != 0 && before != 0 && before == Drop(chunk, j - 1)
      invariant Grouping(num[s'..], n, base + j, grouped, l', !wrote)
      invariant !wrote ==> rest' != 0
      decreases 8 - j, if wrote then 1 else 0
    {
      ChunkRunsOut(chunk, j);
      ghost var digit := rest';
      s', l', o', rest', wrote, j := PutDigit(num, s', l', o', grouped, rest', n, base, chunk, j, !wrote);
      before := if wrote then digit else before;
    }
  }

  /** Zeros up to the eighth digit of the chunk. */
  method PadZeros(num: array<char>, s: nat, grouped: bool, l: nat, o: int,
                  ghost n: nat, ghost base: nat, ghost chunk: nat, ghost i: nat)
    returns (s': nat, l': nat)
    requires num.Length == 512 && s <= 512 && i <= 8 && base <= 16 && s - o == 8 - i
    requires Grouping(num[s..], n, base + i, grouped, l, false) && Continues(n, base, chunk) && Drop(chunk, i) == 0
    modifies num
    ensures s' <= 512 && Grouping(num[s'..], n, base + 8, grouped, l', false)
  {
    s', l' := s, l;
    var o', wrote := o, true;
    ghost var j := i;
    while s' != o'
      invariant s' <= 512 && i <= j <= 8 && s' - o' == 8 - j
      invariant Grouping(num[s'..], n, base + j, grouped, l', !wrote)
      invariant !wrote ==> s' != o'
      decreases 8 - j, if wrote then 1 else 0
    {
      GroupingLength(num[s'..], n, base + j, grouped, l', !wrote);
      DropMonotone(chunk, i, j);
      assert DigitAt(chunk, j) == 0;
      s', l', wrote := PutNext(num, s', l', grouped, '0', n, base + j, !wrote);
      if wrote {
        j := j + 1;
      } else {
        o' := o' - 1;
      }
    }
  }

  lemma {:induction false} LengthIs(n: nat, k: nat)
    requires k > 0 && Drop(n, k) == 0 && (k > 1 ==> Drop(n, k - 1) != 0)
    ensures k == Length(n)
    decreases k
  {
    if k > 1 {
      if n < 10 {
        assert Drop(n, 1) == Drop(n / 10, 0);
        DropMonotone(n, 1, k - 1);
      } else {
        LengthIs(n / 10, k - 1);
      }
    } else {
      assert Drop(n, 1) == Drop(n / 10, 0);
    }
  }

  lemma ChunkContinues(n: nat, base: nat, rest: nat)
    requires rest == Drop(n, base)
    ensures Continues(n, base, rest % 100000000) && Drop(n, base + 8) == rest / 100000000
  {
    TenToEight();
    DropDrop(n, base, 8);
    DropDivides(rest, 8);
    forall j: nat | j < 8
      ensures DigitAt(n, base + j) == DigitAt(rest % 100000000, j)
    {
      DropDrop(n, base, j);
      ChunkDigit(rest, 8, j);
    }
  }

  /** How many digits of a chunk have been written when its value is used up. */
  ghost predicate UsedUp(chunk: nat, j: nat, grouped: bool) {
    && j <= 8 && Drop(chunk, j) == 0
    && if grouped then (if j == 0 then chunk == 0 else Drop(chunk, j - 1) != 0)
       else j >= 2 && (if chunk == 0 then j == 2 else Drop(chunk, j - 2) != 0)
  }

  method PutChunk(num: array<char>, s: nat, grouped: bool, l: nat, chunk: nat, ghost n: nat, ghost base: nat)
    returns (s': nat, l': nat, o: int, ghost j: nat)
    requires num.Length == 512 && s <= 512 && base <= 16
    requires Grouping(num[s..], n, base, grouped, l, false) && Continues(n, base, chunk)
    modifies num
    ensures s' <= 512 && UsedUp(chunk, j, grouped) && s' - o == 8 - j
    ensures Grouping(num[s'..], n, base + j, grouped, l', false)
  {
    GroupingLength(num[s..], n, base, grouped, l, false);
    s', o, j := s, s - 8, 0;
    var rest := chunk;
    if !grouped {
      s', j := PutPairs(num, s, chunk);
      ChunkWritten(n, base, chunk, j);
      rest := 0;
    }
    s', l', o, j := PutDigits(num, s', rest, grouped, l, o, n, base, chunk, j);
  }

  /** A zero in front is the surplus digit of a pair. */
  lemma LeadingZero(n: nat, base: nat, chunk: nat, j: nat, grouped: bool)
    requires chunk == Drop(n, base) && (base > 0 ==> chunk > 0) && UsedUp(chunk, j, grouped) && j > 0
    requires Drop(n, base + j - 1) == 0
    ensures !grouped && base + j - 1 == Length(n)
  {
    DropDrop(n, base, j - 1);
    if !grouped && chunk > 0 {
      DropDrop(n, base, j - 2);
      LengthIs(n, base + j - 1);
    }
  }

  /** Nothing has been written when the most significant chunk is done exactly when commas were asked for and the number
      is 0. */
  lemma EmptyExactlyWhen(n: nat, base: nat, chunk: nat, j: nat, grouped: bool)
    requires chunk == Drop(n, base) && (base > 0 ==> chunk > 0) && UsedUp(chunk, j, grouped)
    ensures Written(n, base + j, grouped) == [] <==> grouped && n == 0
    ensures base + j == 0 <==> grouped && n == 0
  {
    WrittenLength(n, base + j, grouped);
    DropMonotone(0, 0, base);
    DropMonotone(0, 0, if j > 0 then j - 1 else 0);
  }

  /** What has been written then is the numeral, but for a surplus zero in front. */
  lemma LastChunk(n: nat, base: nat, chunk: nat, j: nat, grouped: bool)
    requires chunk == Drop(n, base) && (base > 0 ==> chunk > 0) && UsedUp(chunk, j, grouped) && base + j > 0
    ensures Written(n, base + j, grouped) != []
    ensures Numeral(n, grouped) == Trimmed(Written(n, base + j, grouped))
  {
    var k := base + j;
    WrittenFirst(n, k, grouped);
    assert Drop(n, k) == 0 by { DropDrop(n, base, j); }
    if DigitAt(n, k - 1) == 0 {
      assert Drop(n, k - 1) == 0 by { DropNext(n, k - 1); }
      LeadingZero(n, base, chunk, j, grouped);
    } else {
      LengthIs(n, k);
    }
  }

  function Trimmed(s: string): string {
    if s != [] && s[0] == '0' then s[1..] else s
  }

  lemma ZeroNumeral(grouped: bool)
    ensures Numeral(0, grouped) == "0"
  {
    assert Written(0, 1, grouped) == ['0'] + Written(0, 0, grouped);
  }

  /** Of %'d for 0 no digit is written before the end of the last chunk; the 0 comes from the test behind it. */
  lemma GroupedZero()
    ensures UsedUp(0, 0, true) && Written(0, 0, true) == [] && Numeral(0, true) == "0"
  {
    EmptyExactlyWhen(0, 0, 0, 0, true);
    ZeroNumeral(true);
  }

  lemma WrittenFirst(n: nat, k: nat, grouped: bool)
    requires k > 0
    ensures Written(n, k, grouped) != [] && (Written(n, k, grouped)[0] == '0' <==> DigitAt(n, k - 1) == 0)
    ensures !grouped ==> Written(n, k, grouped)[1..] == Written(n, k - 1, false)
  {
  }

  /** The most significant chunk is done: drop the zero that a pair may have left, or print the zero of the number 0.
      The code looks at the first character before it asks whether there is one, so it may look at the byte behind
      the buffer, here `beyond`; `past` tells whether it does. */
  method Finish(num: array<char>, s: nat, grouped: bool, beyond: char,
                ghost l: nat, ghost n: nat, ghost base: nat, ghost chunk: nat, ghost j: nat)
    returns (s': nat, past: bool)
    requires num.Length == 512 && s <= 512 && base <= 16 && chunk == Drop(n, base) && (base > 0 ==> chunk > 0)
    requires UsedUp(chunk, j, grouped) && Grouping(num[s..], n, base + j, grouped, l, false)
    modifies num
    ensures s' < 512 && num[s'..] == Numeral(n, grouped) && (past <==> grouped && n == 0)
  {
    s' := s;
    EmptyExactlyWhen(n, base, chunk, j, grouped);
    assert |num[s..]| == 512 - s;
    past := s == 512;
    var first := if past then beyond else num[s];
    if past {
      ZeroNumeral(grouped);
    } else {
      LastChunk(n, base, chunk, j, grouped);
    }
    if first == '0' && s != 512 {
      s' := s + 1;
      assert num[s'..] == num[s..][1..];
    }
    if s' == 512 {
      s' := Put(num, s', '0');
    }
  }

  /** The low eight digits and the rest */
  method CutChunk(rest: nat) returns (chunk: nat, rest': nat)
    ensures chunk == rest % 100000000 && rest' == rest / 100000000 && (rest' == 0 ==> chunk == rest)
  {
    if rest >= 100000000 {
      return rest % 100000000, rest / 100000000;
    }
    return rest, 0;
  }

  /** The digits of a value of 64 bits, at the end of a fresh buffer. They do not depend on the byte behind the buffer,
      which is read exactly for a grouped zero. */
  method Convert(value: nat, grouped: bool, beyond: char) returns (num: array<char>, s: nat, past: bool)
    requires value < 18446744073709551616
    ensures fresh(num) && num.Length == 512 && s < 512 && num[s..] == Numeral(value, grouped)
    ensures past <==> grouped && value == 0
  {
    num, s := new char[512], 512;
    var rest, l := value, 0;
    ghost var base := 0;
    while true
      invariant num.Length == 512 && s <= 512 && base <= 16 && rest == Drop(value, base)
      invariant base > 0 ==> rest > 0
      invariant if base == 0 then rest == value
                else if base == 8 then rest < 184467440738 else base == 16 && rest < 1845
      invariant Grouping(num[s..], value, base, grouped, l, false)
      decreases 24 - base
    {
      ChunkContinues(value, base, rest);
      var chunk, o;
      ghost var j;
      chunk, rest := CutChunk(rest);
      s, l, o, j := PutChunk(num, s, grouped, l, chunk, value, base);
      if rest == 0 {
        s, past := Finish(num, s, grouped, beyond, l, value, base, chunk, j);
        return;
      }
      s, l := PadZeros(num, s, grouped, l, o, value, base, chunk, j);
      base := base + 8;
    }
  }

  // Signed arguments

  /** 2^32 and 2^64, for arguments without and with the 64-bit size flag */
  predicate IsModulus(m: nat) {
    m == 4294967296 || m == 18446744073709551616
  }

  /** The absolute value as the code takes it: negation wraps, so the least value is its own negative. */
  function Magnitude(i: int, m: nat): nat
    requires IsModulus(m)
  {
    if i < 0 then -i % m else i % m
  }

  /** stbsp__lead_sign */
  function Sign(negative: bool, space: bool, plus: bool): string {
    if negative then "-" else if space then " " else if plus then "+" else ""
  }

  /** The number that a sign and a numeral stand for. */
  function Reading(lead: string, digits: nat): int {
    if lead == "-" then 0 - digits else digits
  }

  /** Every signed value, the least one too, reads back from its sign and its digits; taken as unsigned it reads back
      modulo 2^32 or 2^64. */
  lemma SignedReadsBack(i: int, m: nat, grouped: bool, space: bool, plus: bool)
    requires IsModulus(m) && 0 <= 2 * i + m < 2 * m
    ensures Magnitude(i, m) < 18446744073709551616
    ensures Reading(Sign(i < 0, space, plus), Parse(Plain(Magnitude(i, m), grouped))) == i
    ensures Parse(Plain(i % m, grouped)) == if i < 0 then i + m else i
  {
    MagnitudeIs(i, m);
    NumeralReadsBack(Magnitude(i, m), grouped);
    NumeralReadsBack(i % m, grouped);
  }

  lemma MagnitudeIs(i: int, m: nat)
    requires IsModulus(m) && 0 <= 2 * i + m < 2 * m
    ensures Magnitude(i, m) == (if i < 0 then -i else i) && i % m == if i < 0 then i + m else i
  {
  }
}
