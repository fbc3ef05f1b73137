/** The output side of stb_sprintf: text is produced into a working buffer of 512 bytes that is handed to a callback
    whenever it is nearly full, and the callback of vsnprintf keeps what fits into the caller's buffer. The working
    buffer is the caller's own memory while at least 512 bytes of it are free, and a scratch array after that. */
module SprintfOutput {
  import opened Basics
  import Numerals

  /** A byte of text, as the word-wise scan treats it */
  type Char8 = bv8

  type Text = seq<Char8>

  const SPACE: Char8 := 0x20
  const COMMA: Char8 := 0x2c
  const ZERO: Char8 := 0x30
  const PERCENT: Char8 := 0x25

  class Output {
    const user: array<Char8>   // the caller's buffer
    const count: nat          // how much of it may be used
    const tmp: array<Char8>    // the scratch buffer
    var at: nat               // how much of the caller's buffer is final
    var room: nat             // how much of it is left
    var length: nat           // how much text the callback has been handed
    var direct: bool          // the working buffer is the caller's, from `at` on
    var fill: nat             // how much the working buffer holds
    ghost var text: Text      // everything written so far
    ghost var initial: Text   // the caller's buffer before

    ghost predicate Shape()
      reads this
    {
      && user != tmp && tmp.Length == 512 && count <= user.Length && at + room == count
      && fill <= 512 && length + fill == |text| && at == Min(length, count)
      && direct == (room >= 512)
    }

    /** Where the caller's buffer has not been touched. */
    ghost function Reach(): nat
      reads this
    {
      if direct then at + fill else at
    }

    /** The i-th byte of the text is where it should be: in the caller's buffer if final and within it, in the working
        buffer if pending. */
    ghost predicate Placed(i: nat)
      requires Shape() && i < |text|
      reads this, user, tmp
    {
      && (i < at ==> user[i] == text[i])
      && (i >= length ==> (if direct then user[at + (i - length)] else tmp[i - length]) == text[i])
    }

    ghost predicate Untouched(i: nat)
      requires i < user.Length && |initial| == user.Length
      reads this, user
    {
      i >= Reach() ==> user[i] == initial[i]
    }

    ghost predicate Valid()
      reads this, user, tmp
    {
      && Shape() && |initial| == user.Length
      && (forall i: nat {:trigger Placed(i)} :: i < |text| ==> Placed(i))
      && (forall i: nat {:trigger Untouched(i)} :: i < user.Length ==> Untouched(i))
    }

    /** vsnprintf before it formats anything */
    constructor (user: array<Char8>, count: nat)
      requires count <= user.Length
      ensures Valid() && text == [] && this.user == user && this.count == count && initial == user[..] && fresh(tmp)
    {
      this.user, this.count := user, count;
      tmp := new Char8[512];
      at, room, length, fill, direct := 0, count, 0, 0, count >= 512;
      text, initial := [], user[..];
    }

    /** *bf++ = b */
    method Write(b: Char8)
      requires Valid() && fill < 512
      modifies this`fill, this`text, user, tmp
      ensures Valid() && text == old(text) + [b] && fill == old(fill) + 1
    {
      if direct {
        user[at + fill] := b;
      } else {
        tmp[fill] := b;
      }
      fill, text := fill + 1, text + [b];
      forall i: nat | i < |text|
        ensures Placed(i)
      {
        if i < |text| - 1 {
          assert old(Placed(i));
        }
      }
      forall i: nat | i < user.Length
        ensures Untouched(i)
      {
        assert old(Untouched(i));
      }
    }

    /** stbsp__clamp_callback on the working buffer */
    method Flush()
      requires Valid()
      modifies this`at, this`room, this`length, this`direct, this`fill, user
      ensures Valid() && fill == 0 && length == old(length) + old(fill)
    {
      var len := fill;
      if len > room {
        len := room;
      }
      if len > 0 && !direct {
        Copy(tmp, user, at, len);
      }
      length := length + fill;
      at, room := at + len, room - len;
      direct, fill := room >= 512, 0;
      forall i: nat | i < |text|
        ensures Placed(i)
      {
        assert old(Placed(i));
      }
      forall i: nat | i < user.Length
        ensures Untouched(i)
      {
        assert old(Untouched(i));
      }
    }

    /** The copy loop of the callback */
    static method Copy(source: array<Char8>, target: array<Char8>, at: nat, len: nat)
      requires source != target && len <= source.Length && at + len <= target.Length
      modifies target
      ensures forall i :: 0 <= i < target.Length ==>
                            target[i] == if at <= i < at + len then source[i - at] else old(target[i])
    {
      var k := 0;
      while k < len
        invariant k <= len
        invariant forall i :: 0 <= i < target.Length ==>
                                target[i] == if at <= i < at + k then source[i - at] else old(target[i])
      {
        target[at + k] := source[k];
        k := k + 1;
      }
    }

    /** stbsp__chk_cb_bufL */
    method Check(bytes: nat)
      requires Valid() && 0 < bytes
      modifies this`at, this`room, this`length, this`direct, this`fill, user
      ensures Valid() && fill == (if old(fill) + bytes >= 512 then 0 else old(fill))
    {
      if fill + bytes >= 512 {
        Flush();
      }
    }

    /** The single-byte path of the literal copy */
    method PutByte(b: Char8)
      requires Valid()
      modifies this`at, this`room, this`length, this`direct, this`fill, this`text, user, tmp
      ensures Valid() && text == old(text) + [b] && 0 < fill < 512
    {
      Check(1);
      Write(b);
    }

    /** The four-byte store of the literal copy, where it fits without asking the callback */
    method PutWord(bytes: Text)
      requires Valid() && |bytes| == 4 && fill <= 508
      modifies this`fill, this`text, user, tmp
      ensures Valid() && text == old(text) + bytes && fill == old(fill) + 4
    {
      Write(bytes[0]);
      Write(bytes[1]);
      Write(bytes[2]);
      Write(bytes[3]);
      assert [bytes[0]] + [bytes[1]] + [bytes[2]] + [bytes[3]] == bytes;
    }

    /** As many bytes as the working buffer takes, at most what is left to do */
    function Clamp(n: nat): nat
      requires fill <= 512
      reads this
    {
      if n > 512 - fill then 512 - fill else n
    }

    /** The chunked copy loops of scopy */
    method PutRun(bytes: Text)
      requires Valid()
      modifies this`at, this`room, this`length, this`direct, this`fill, this`text, user, tmp
      ensures Valid() && text == old(text) + bytes
    {
      var done: nat := 0;
      while done < |bytes|
        invariant Valid() && done <= |bytes| && text == old(text) + bytes[..done]
        decreases |bytes| - done, fill
      {
        ghost var before, held := done, fill;
        var i: nat := Clamp(|bytes| - done);
        while i > 0
          invariant Valid() && before <= done && done + i <= |bytes| && i <= 512 - fill
          invariant text == old(text) + bytes[..done]
          invariant fill == held + (done - before) && (before < done || i > 0 || held == 512)
        {
          Write(bytes[done]);
          assert bytes[..done + 1] == bytes[..done] + [bytes[done]];
          done, i := done + 1, i - 1;
        }
        Check(1);
      }
      assert bytes[..|bytes|] == bytes;
    }

    /** The test of four bytes at once */
    static method TestWord(mem: Text, g: nat) returns (percent: bool, zero: bool)
      requires g + 4 <= |mem|
      ensures !percent ==> mem[g] != PERCENT
      ensures !percent && !zero ==> !IsStop(mem[g]) && !IsStop(mem[g + 1]) && !IsStop(mem[g + 2]) && !IsStop(mem[g + 3])
    {
      var v := Word(mem[g], mem[g + 1], mem[g + 2], mem[g + 3]);
      StopsAreSeen(mem[g], mem[g + 1], mem[g + 2], mem[g + 3]);
      return SeesPercent(v), SeesZero(v);
    }

    /** The aligned part of the literal copy: four bytes if they hold no stop and fit without asking the callback. */
    method CopyWord(mem: Text, g: nat, ghost e: nat) returns (copied: bool, checked: bool)
      requires Valid() && EndsAt(mem, g, e)
      modifies this`fill, this`text, user, tmp
      ensures Valid() && (checked ==> !copied && mem[g] != PERCENT)
      ensures if copied then g + 4 <= e && text == old(text) + mem[g..g + 4] else text == old(text)
    {
      var percent, zero := TestWord(mem, g);
      if percent || zero || 512 - fill < 4 {
        return false, !percent && zero;
      }
      PutWord(mem[g..g + 4]);
      return true, false;
    }

    /** The part that copies a byte, or stops; a byte known to be no percent sign is only compared with the end. */
    method CopyByte(mem: Text, g: nat, checked: bool, ghost e: nat) returns (stop: bool)
      requires Valid() && EndsAt(mem, g, e) && (checked ==> mem[g] != PERCENT)
      modifies this`at, this`room, this`length, this`direct, this`fill, this`text, user, tmp
      ensures Valid() && stop == (g == e) && text == if stop then old(text) else old(text) + [mem[g]]
    {
      if (!checked && mem[g] == PERCENT) || mem[g] == 0 {
        return true;
      }
      PutByte(mem[g]);
      return false;
    }

    /** The literal copy: four bytes at a time where the format is aligned, up to the next percent sign or the end. The
        four-byte test may see a stop that is not there; it never overlooks one. */
    method CopyLiteral(mem: Text, f: nat, address: nat, ghost e: nat) returns (g: nat)
      requires Valid() && EndsAt(mem, f, e)
      modifies this`at, this`room, this`length, this`direct, this`fill, this`text, user, tmp
      ensures Valid() && g == e && text == old(text) + mem[f..e]
    {
      g := f;
      var word, checked, stop := (address + g) % 4 == 0, false, false;
      while !stop
        invariant Valid() && f <= g <= e && text == old(text) + mem[f..g] && (stop ==> g == e)
        invariant checked ==> mem[g] != PERCENT
        decreases e - g, if stop then 0 else if word then 2 else 1
      {
        ghost var before := g;
        g, word, checked, stop := CopySome(mem, g, address, word, checked, e);
        Extend(old(text), mem, f, before, g);
      }
    }

    /** One turn of the literal copy: four bytes, one byte, or none when the word holds a stop or does not fit. */
    method CopySome(mem: Text, g: nat, address: nat, word: bool, checked: bool, ghost e: nat)
      returns (g': nat, word': bool, checked': bool, stop: bool)
      requires Valid() && EndsAt(mem, g, e) && (checked ==> mem[g] != PERCENT)
      modifies this`at, this`room, this`length, this`direct, this`fill, this`text, user, tmp
      ensures Valid() && g <= g' <= e && text == old(text) + mem[g..g'] && (stop ==> g' == e)
      ensures (checked' && !stop ==> mem[g'] != PERCENT) && (g' == g && !stop ==> word && !word')
      ensures stop ==> checked' == checked && g' == g
    {
      g', word', checked', stop := g, word, checked, false;
      if word {
        word', checked' := CopyWord(mem, g, e);
        if word' {
          g' := g + 4;
        }
      } else {
        stop := CopyByte(mem, g, checked, e);
        if !stop {
          g' := g + 1;
          assert mem[g..g'] == [mem[g]];
          word', checked' := (address + g') % 4 == 0, false;
        }
      }
    }

    /** The inner loop of the leading zeros: k of them are there, and i more go into the working buffer. */
    method PutSomeZeros(i: nat, commas: bool, c: nat, cs: nat, ghost all: Text, ghost total: nat, ghost k: nat)
      returns (cs': nat)
      requires Valid() && i <= 512 - fill && k + i <= |all| <= total && FillsAs(all, commas, c, total)
      requires commas ==> cs == Phase(total, k, c)
      modifies this`fill, this`text, user, tmp
      ensures Valid() && text == old(text) + all[k..k + i] && fill == old(fill) + i
      ensures commas ==> cs' == Phase(total, k + i, c)
    {
      cs' := cs;
      for j := 0 to i
        invariant Valid() && text == old(text) + all[k..k + j] && fill == old(fill) + j
        invariant commas ==> cs' == Phase(total, k + j, c)
      {
        PhaseStep(total, k + j, c);
        assert all[k..k + j + 1] == all[k..k + j] + [all[k + j]];
        if commas && cs' == c {
          Write(COMMA);
          cs' := 0;
        } else {
          Write(ZERO);
          cs' := cs' + 1;
        }
      }
    }

    /** The loop of scopy that writes leading zeros, with commas that continue those of the digits */
    method PutZeros(n: nat, commas: bool, c: nat, l: nat)
      requires Valid()
      modifies this`at, this`room, this`length, this`direct, this`fill, this`text, user, tmp
      ensures Valid() && text == old(text) + Filler(n, commas, c, l)
    {
      ghost var all := Filler(n, commas, c, l);
      ghost var total, k := n + l, 0;
      var left: nat := n;
      PhaseStart(total, c);
      var cs: nat := if commas then c - (n + l) % (c + 1) else 0;
      while left > 0
        invariant Valid() && left + k == n && text == old(text) + all[..k]
        invariant commas ==> cs == Phase(total, k, c)
        decreases left, fill
      {
        var i := Clamp(left);
        cs := PutSomeZeros(i, commas, c, cs, all, total, k);
        assert all[..k + i] == all[..k] + all[k..k + i];
        left, k := left - i, k + i;
        Check(1);
      }
      assert all[..n] == all;
    }

    /** The arithmetic at the head of scopy: how many spaces and how many leading zeros, and whether these get commas */
    static method Measure(d: Layout) returns (fw: nat, pr: nat, commas: bool)
      ensures fw == d.Spaces() && pr == d.Zeros() && commas == (d.commas && (d.left || d.zeros))
    {
      var l := |d.body|;
      pr := d.precision;
      if pr < l {
        pr := l;
      }
      var n := pr + |d.lead| + |d.tail| + d.trailing;
      fw := d.width;
      if fw < n {
        fw := n;
      }
      fw, pr, commas := fw - n, pr - l, d.commas;
      if !d.left {
        if d.zeros {
          pr := if fw > pr then fw else pr;
          fw := 0;
        } else {
          commas := false;
        }
      }
    }

    /** scopy */
    method PutField(d: Layout)
      requires Valid()
      modifies this`at, this`room, this`length, this`direct, this`fill, this`text, user, tmp
      ensures Valid() && text == old(text) + FieldText(d)
    {
      var fw, pr, commas := Measure(d);
      var before := if d.left then 0 else fw;
      PutRun(Repeat(SPACE, before));
      PutRun(d.lead);
      PutZeros(pr, commas, d.group, |d.body|);
      PutRun(d.body);
      PutRun(Repeat(ZERO, d.trailing));
      PutRun(d.tail);
      PutRun(Repeat(SPACE, fw - before));
      SevenParts(old(text), FieldParts(d));
    }

    method PutPiece(p: Piece)
      requires Valid() && p.Valid()
      modifies this`at, this`room, this`length, this`direct, this`fill, this`text, user, tmp
      ensures Valid() && text == old(text) + p.Shown()
    {
      match p {
        case Literal(mem, f, e, address) =>
          var g := CopyLiteral(mem, f, address, e);
        case Field(layout) =>
          PutField(layout);
      }
    }

    /** stbsp__flush_cb and the terminator of vsnprintf */
    method Finish() returns (n: nat)
      requires Valid() && count >= 1
      modifies this`at, this`room, this`length, this`direct, this`fill, user
      ensures n == |text|
      ensures user[..] == Truncated(text, count, initial)
    {
      Check(511);
      label L:
      var l := at;
      if l >= count {
        l := count - 1;
      }
      user[l] := 0;
      n := length;
      forall i: nat | i < user.Length
        ensures user[i] == Truncated(text, count, initial)[i]
      {
        assert old@L(Untouched(i)) && (i < |text| ==> old@L(Placed(i)));
      }
    }
  }

  /** What vsnprintf leaves in a buffer: the text as far as it fits before a terminator, and beyond that what was
      there. */
  function Truncated(text: Text, count: nat, initial: Text): Text
    requires 1 <= count <= |initial|
  {
    var kept := Min(count - 1, |text|);
    text[..kept] + [0] + initial[kept + 1..]
  }

  // Finding the end of a literal

  predicate IsStop(b: Char8) {
    b == 0 || b == PERCENT
  }

  /** The literal that starts at f ends at e; a word read from there stays inside the memory. */
  ghost predicate EndsAt(mem: Text, f: nat, e: nat) {
    f <= e && e + 4 <= |mem| && IsStop(mem[e]) && forall i :: f <= i < e ==> !IsStop(mem[i])
  }

  lemma Extend(t: Text, mem: Text, f: nat, g: nat, h: nat)
    requires f <= g <= h <= |mem|
    ensures t + mem[f..h] == t + mem[f..g] + mem[g..h]
  {
    Regroup(t, mem[f..g], mem[g..h]);
    assert mem[f..h] == mem[f..g] + mem[g..h];
  }

  function Word(a: Char8, b: Char8, c: Char8, d: Char8): bv32 {
    (a as bv32) | ((b as bv32) << 8) | ((c as bv32) << 16) | ((d as bv32) << 24)
  }

  predicate SeesPercent(v: bv32) {
    ((v ^ 0x25252525) - 0x01010101) & (!v & 0x80808080) != 0
  }

  predicate SeesZero(v: bv32) {
    (v - 0x01010101) & (!v & 0x80808080) != 0
  }

  /** The bit trick on four bytes at once never overlooks a stop. */
  lemma StopsAreSeen(a: Char8, b: Char8, c: Char8, d: Char8)
    ensures !SeesPercent(Word(a, b, c, d)) ==> a != PERCENT && b != PERCENT && c != PERCENT && d != PERCENT
    ensures !SeesPercent(Word(a, b, c, d)) && !SeesZero(Word(a, b, c, d)) ==>
              !IsStop(a) && !IsStop(b) && !IsStop(c) && !IsStop(d)
  {
  }

  // The layout of a field

  /** What a conversion has prepared for output: flags, width and precision, sign or prefix, digits, trailing zeros, and
      the size of the comma groups. */
  datatype Layout = Layout(
    left: bool, zeros: bool, commas: bool, width: nat, precision: nat,
    lead: Text, body: Text, trailing: nat, tail: Text, group: nat)
  {
    /** The field without padding, the digits filled up to the precision */
    function Content(): nat {
      Max(precision, |body|) + |lead| + |tail| + trailing
    }

    function Spaces(): nat {
      if !left && zeros then 0 else Max(width, Content()) - Content()
    }

    function Zeros(): nat {
      var missing := Max(precision, |body|) - |body|;
      if !left && zeros then Max(Max(width, Content()) - Content(), missing) else missing
    }
  }

  function Repeat(b: Char8, n: nat): (t: Text)
    ensures |t| == n
  {
    seq(n, _ => b)
  }

  /** n filling zeros in front of l characters; with commas, every place that counts c modulo c + 1 from the right is
      one. */
  function Filler(n: nat, commas: bool, c: nat, l: nat): (t: Text)
    ensures |t| == n
  {
    seq(n, i requires 0 <= i < n => if commas && (n + l - 1 - i) % (c + 1) == c then COMMA else ZERO)
  }

  function Fill(d: Layout): Text {
    Filler(d.Zeros(), d.commas && (d.left || d.zeros), d.group, |d.body|)
  }

  function Concat(parts: seq<Text>): Text {
    if parts == [] then [] else parts[0] + Concat(parts[1..])
  }

  function FieldParts(d: Layout): seq<Text> {
    var before := if d.left then 0 else d.Spaces();
    [Repeat(SPACE, before), d.lead, Fill(d), d.body, Repeat(ZERO, d.trailing), d.tail,
     Repeat(SPACE, d.Spaces() - before)]
  }

  function FieldText(d: Layout): Text {
    Concat(FieldParts(d))
  }

  /** The counter of the comma loop after i of the total characters. */
  function Phase(total: nat, i: nat, c: nat): nat {
    (i + c - total % (c + 1)) % (c + 1)
  }

  /** The text is a filler for the end of a field of that many characters. */
  ghost predicate FillsAs(t: Text, commas: bool, c: nat, total: nat)
    requires |t| <= total
  {
    forall i :: 0 <= i < |t| ==> t[i] == if commas && (total - 1 - i) % (c + 1) == c then COMMA else ZERO
  }

  lemma PhaseStart(total: nat, c: nat)
    ensures total % (c + 1) <= c && Phase(total, 0, c) == c - total % (c + 1)
  {
    UniqueRemainder(c - total % (c + 1), 0, c - total % (c + 1), c + 1);
  }

  lemma SevenParts(t: Text, p: seq<Text>)
    requires |p| == 7
    ensures t + p[0] + p[1] + p[2] + p[3] + p[4] + p[5] + p[6] == t + Concat(p)
  {
    PartFirst(t, p);
    PartFirst(t + p[0], p[1..]);
    PartFirst(t + p[0] + p[1], p[2..]);
    PartFirst(t + p[0] + p[1] + p[2], p[3..]);
    PartFirst(t + p[0] + p[1] + p[2] + p[3], p[4..]);
    PartFirst(t + p[0] + p[1] + p[2] + p[3] + p[4], p[5..]);
    PartFirst(t + p[0] + p[1] + p[2] + p[3] + p[4] + p[5], p[6..]);
    assert p[6..][1..] == [];
  }

  lemma PartFirst(t: Text, p: seq<Text>)
    requires p != []
    ensures t + Concat(p) == t + p[0] + Concat(p[1..])
    ensures |p| > 1 ==> p[1..][0] == p[1]
  {
    Regroup(t, p[0], Concat(p[1..]));
  }

  lemma PhaseStep(total: nat, i: nat, c: nat)
    requires i < total
    ensures Phase(total, i + 1, c) == if Phase(total, i, c) == c then 0 else Phase(total, i, c) + 1
    ensures Phase(total, i, c) == c <==> (total - 1 - i) % (c + 1) == c
  {
    var g := c + 1;
    NextRemainder(i + c - total % g, g);
    Mirror(total, i, g);
  }

  lemma NextRemainder(x: nat, g: nat)
    requires g > 0
    ensures (x + 1) % g == if x % g == g - 1 then 0 else x % g + 1
  {
    var q := x / g;
    assert x == g * q + x % g;
    if x % g == g - 1 {
      assert x + 1 == g * (q + 1) + 0;
      UniqueRemainder(x + 1, q + 1, 0, g);
    } else {
      UniqueRemainder(x + 1, q, x % g + 1, g);
    }
  }

  /** Counting from the left and from the right meet at the same places. */
  lemma Mirror(total: nat, i: nat, g: nat)
    requires i < total && g > 0
    ensures (i + (g - 1) - total % g) % g == g - 1 <==> (total - 1 - i) % g == g - 1
  {
    var x, y := i + (g - 1) - total % g, total - 1 - i;
    var p, q, t := x / g, y / g, total / g;
    assert x == g * p + x % g && y == g * q + y % g && total == g * t + total % g;
    if x % g == g - 1 {
      assert y == g * (t - p) - 1 == g * (t - p - 1) + (g - 1);
      UniqueRemainder(y, t - p - 1, g - 1, g);
    }
    if y % g == g - 1 {
      assert x == g * (t - q - 1) + (g - 1);
      UniqueRemainder(x, t - q - 1, g - 1, g);
    }
  }

  // Whole calls

  /** A stretch of the format string, or the result of a conversion. */
  datatype Piece =
    | Literal(mem: Text, f: nat, e: nat, address: nat)
    | Field(layout: Layout)
  {
    ghost predicate Valid() {
      Literal? ==> EndsAt(mem, f, e)
    }

    ghost function Shown(): Text
      requires Valid()
    {
      if Literal? then mem[f..e] else FieldText(layout)
    }
  }

  /** The unbounded output. */
  ghost function Rendered(pieces: seq<Piece>): Text
    requires forall p :: p in pieces ==> p.Valid()
  {
    if pieces == [] then [] else Rendered(pieces[..|pieces| - 1]) + pieces[|pieces| - 1].Shown()
  }

  lemma RenderedNext(pieces: seq<Piece>, k: nat)
    requires k < |pieces| && forall p :: p in pieces ==> p.Valid()
    ensures pieces[k].Valid() && Rendered(pieces[..k + 1]) == Rendered(pieces[..k]) + pieces[k].Shown()
  {
    assert pieces[..k + 1][..k] == pieces[..k];
  }

  method PutPieces(out: Output, pieces: seq<Piece>)
    requires out.Valid() && out.text == [] && forall p :: p in pieces ==> p.Valid()
    modifies out, out.user, out.tmp
    ensures out.Valid() && out.text == Rendered(pieces) && out.initial == old(out.initial)
  {
    for k := 0 to |pieces|
      invariant out.Valid() && out.text == Rendered(pieces[..k]) && out.initial == old(out.initial)
    {
      RenderedNext(pieces, k);
      out.PutPiece(pieces[k]);
    }
    assert pieces[..|pieces|] == pieces;
  }

  /** vsnprintf into a buffer: whatever the pieces and however they fall into chunks, the buffer ends up with the first
      characters of the unbounded output and a terminator, and the result is the length of all of it. */
  method Vsnprintf(buf: array<Char8>, count: nat, pieces: seq<Piece>) returns (n: nat)
    requires 1 <= count <= buf.Length && forall p :: p in pieces ==> p.Valid()
    modifies buf
    ensures n == |Rendered(pieces)|
    ensures buf[..] == Truncated(Rendered(pieces), count, old(buf[..]))
    ensures forall i :: 0 <= i < buf.Length ==>
                          buf[i] == if i < count - 1 && i < n then Rendered(pieces)[i]
                                    else if i == Min(count - 1, n) then 0 else old(buf[i])
  {
    var out := new Output(buf, count);
    PutPieces(out, pieces);
    n := out.Finish();
    forall i | 0 <= i < buf.Length
      ensures buf[i] == if i < count - 1 && i < n then Rendered(pieces)[i]
                        else if i == Min(count - 1, n) then 0 else old(buf[i])
    {
      TruncatedAt(Rendered(pieces), count, old(buf[..]), i);
      assert buf[i] == buf[..][i];
    }
  }

  lemma TruncatedAt(text: Text, count: nat, initial: Text, i: nat)
    requires 1 <= count <= |initial| && i < |initial|
    ensures |Truncated(text, count, initial)| == |initial|
    ensures Truncated(text, count, initial)[i]
            == if i < count - 1 && i < |text| then text[i] else if i == Min(count - 1, |text|) then 0 else initial[i]
  {
  }

  /** The output of two stretches of a format is that of the first and then that of the second. */
  lemma {:induction false} RenderedConcat(a: seq<Piece>, b: seq<Piece>)
    requires (forall p :: p in a ==> p.Valid()) && (forall p :: p in b ==> p.Valid())
    ensures (forall p :: p in a + b ==> p.Valid()) && Rendered(a + b) == Rendered(a) + Rendered(b)
    decreases |b|
  {
    if b == [] {
      assert a + b == a;
    } else {
      var front := b[..|b| - 1];
      assert (a + b)[..|a + b| - 1] == a + front;
      RenderedConcat(a, front);
      Regroup(Rendered(a), Rendered(front), b[|b| - 1].Shown());
    }
  }

  /** vsnprintf without a buffer and with count 0 only counts: its callback keeps nothing. */
  method CountOnly(pieces: seq<Piece>) returns (n: nat)
    requires forall p :: p in pieces ==> p.Valid()
    ensures n == |Rendered(pieces)|
  {
    var nothing := new Char8[0];
    var out := new Output(nothing, 0);
    PutPieces(out, pieces);
    out.Check(511);
    n := out.length;
  }

  /** Where vsnprintf puts the terminator when so many characters have been stored. */
  function TerminatorAt(stored: nat, count: nat): int {
    if stored >= count then count - 1 else stored
  }

  /** It is inside the buffer exactly when the count is not zero; Vsnprintf therefore asks for that. */
  lemma TerminatorFits(stored: nat, count: nat)
    ensures 0 <= TerminatorAt(stored, count) < count <==> count >= 1
  {
  }

  // Width and commas of a field

  lemma FieldLength(d: Layout)
    ensures |FieldText(d)| == d.Spaces() + |d.lead| + d.Zeros() + |d.body| + d.trailing + |d.tail|
  {
    SevenParts([], FieldParts(d));
    assert [] + FieldText(d) == FieldText(d);
  }

  lemma FieldIs(d: Layout)
    ensures var before := if d.left then 0 else d.Spaces();
            FieldText(d) == Repeat(SPACE, before) + d.lead + Fill(d) + d.body + Repeat(ZERO, d.trailing) + d.tail
                            + Repeat(SPACE, d.Spaces() - before)
  {
    SevenParts([], FieldParts(d));
    assert [] + FieldText(d) == FieldText(d);
    assert [] + FieldParts(d)[0] == FieldParts(d)[0];
  }

  ghost predicate AllSpaces(t: Text) {
    forall i :: 0 <= i < |t| ==> t[i] == SPACE
  }

  ghost predicate ZerosAndCommas(t: Text, commas: bool) {
    forall i :: 0 <= i < |t| ==> t[i] == ZERO || (t[i] == COMMA && commas)
  }

  /** Where everything stands: from the place a on the sign or prefix, then z zeros that may have commas among them,
      then the digits, the trailing zeros and the tail; before and after that only spaces, and these on one side
      only. */
  ghost predicate Stands(t: Text, d: Layout, a: nat, z: nat) {
    var b := a + |d.lead| + z + |d.body|;
    var e := b + d.trailing + |d.tail|;
    && e <= |t| && AllSpaces(t[..a]) && t[a..a + |d.lead|] == d.lead
    && ZerosAndCommas(t[a + |d.lead|..b - |d.body|], d.commas) && t[b - |d.body|..b] == d.body
    && t[b..b + d.trailing] == Repeat(ZERO, d.trailing) && t[b + d.trailing..e] == d.tail && AllSpaces(t[e..])
    && (if d.left then a == 0 else e == |t|)
  }

  lemma PartsStand(t: Text, d: Layout, p: Text, f: Text, q: Text)
    requires t == p + d.lead + f + d.body + Repeat(ZERO, d.trailing) + d.tail + q
    requires AllSpaces(p) && AllSpaces(q) && ZerosAndCommas(f, d.commas) && (if d.left then p == [] else q == [])
    ensures Stands(t, d, |p|, |f|)
  {
    PartsPlaced(t, p, d.lead, f, d.body, Repeat(ZERO, d.trailing), d.tail, q);
  }

  /** In every field everything stands in its place. The digits are filled up to the precision with zeros; only in a
      right-justified field with the 0 flag there may be more, and then there are no spaces. */
  lemma FieldPlaces(d: Layout)
    ensures exists a, z: nat :: Stands(FieldText(d), d, a, z) && z >= Max(d.precision, |d.body|) - |d.body| &&
                                if d.left || !d.zeros then z == Max(d.precision, |d.body|) - |d.body| else a == 0
  {
    var before := if d.left then 0 else d.Spaces();
    var p, q := Repeat(SPACE, before), Repeat(SPACE, d.Spaces() - before);
    FieldIs(d);
    PartsStand(FieldText(d), d, p, Fill(d), q);
    assert Stands(FieldText(d), d, before, d.Zeros());
  }

  lemma PartsPlaced(t: Text, p: Text, l: Text, f: Text, y: Text, z: Text, u: Text, q: Text)
    requires t == p + l + f + y + z + u + q
    ensures var a := |p|; var b := a + |l| + |f| + |y|; var e := b + |z| + |u|;
            && |t| == e + |q| && t[..a] == p && t[a..a + |l|] == l && t[a + |l|..b - |y|] == f && t[b - |y|..b] == y
            && t[b..b + |z|] == z && t[b + |z|..e] == u && t[e..] == q
  {
    var rest := y + z + u + q;
    assert t == p + l + f + rest;
    ThreeFirst(t, p, l, f, rest);
    FourLast(t, p + l + f, y, z, u, q);
  }

  lemma ThreeFirst(t: Text, p: Text, l: Text, f: Text, rest: Text)
    requires t == p + l + f + rest
    ensures t[..|p|] == p && t[|p|..|p| + |l|] == l && t[|p| + |l|..|p| + |l| + |f|] == f
  {
  }

  lemma FourLast(t: Text, front: Text, y: Text, z: Text, u: Text, q: Text)
    requires t == front + y + z + u + q
    ensures var a := |front|; var b := a + |y|; var e := b + |z| + |u|;
            |t| == e + |q| && t[a..b] == y && t[b..b + |z|] == z && t[b + |z|..e] == u && t[e..] == q
  {
  }

  /** A field is as wide as its width and its content ask for, unless zeros fill both the width and the precision: the
      two fillings are then not added. */
  lemma WidthExactlyWhen(d: Layout)
    ensures |FieldText(d)| == Max(d.width, d.Content())
            <==> d.left || !d.zeros || d.precision <= |d.body| || d.width <= d.Content()
  {
    FieldLength(d);
  }

  /** %08.5d of 12 prints five characters. */
  lemma NarrowField()
    ensures var d := Layout(false, true, false, 8, 5, [], [0x31, 0x32], 0, [], 3);
            FieldText(d) == [ZERO, ZERO, ZERO, 0x31, 0x32]
  {
    var d := Layout(false, true, false, 8, 5, [], [0x31, 0x32], 0, [], 3);
    SevenParts([], FieldParts(d));
    assert d.Spaces() == 0 && d.Zeros() == 3;
    assert Fill(d) == [ZERO, ZERO, ZERO];
    assert [] + FieldText(d) == FieldText(d);
  }

  /** Counted from the right, the commas of the text are at the places c, 2c + 1, 3c + 2, ... */
  ghost predicate CommasEvery(t: Text, c: nat) {
    forall i: nat :: i < |t| ==> CommaRight(t, c, i)
  }

  ghost predicate CommaRight(t: Text, c: nat, i: nat)
    requires i < |t|
  {
    t[|t| - 1 - i] == COMMA <==> i % (c + 1) == c
  }

  predicate CommaDue(i: nat, c: nat) {
    i % (c + 1) == c
  }

  /** No comma is due at the n places after the first l exactly when these do not complete a group and its comma. */
  lemma {:induction false} NoneDue(l: nat, n: nat, c: nat)
    ensures (forall i: nat :: l <= i < l + n ==> !CommaDue(i, c)) <==> (l + n) / (c + 1) == l / (c + 1)
  {
    if n > 0 {
      NoneDue(l, n - 1, c);
      var g, x := c + 1, l + n - 1;
      assert CommaDue(x, c) <==> x % g == g - 1;
      NextQuotient(x, g);
      QuotientGrows(l, n - 1, g);
    }
  }

  lemma NextQuotient(x: nat, g: nat)
    requires g > 0
    ensures (x + 1) / g == if x % g == g - 1 then x / g + 1 else x / g
  {
    var q := x / g;
    assert x == g * q + x % g;
    if x % g == g - 1 {
      assert x + 1 == g * (q + 1) + 0;
      UniqueRemainder(x + 1, q + 1, 0, g);
    } else {
      UniqueRemainder(x + 1, q, x % g + 1, g);
    }
  }

  lemma {:induction false} QuotientGrows(x: nat, n: nat, g: nat)
    requires g > 0
    ensures (x + n) / g >= x / g
  {
    if n > 0 {
      QuotientGrows(x, n - 1, g);
      NextQuotient(x + n - 1, g);
    }
  }

  /** The commas of the digits are continued in the filling zeros exactly when the field is left-justified or has the 0
      flag, or no comma is due in the zeros: the code drops the comma flag of other fields before it fills them. */
  lemma CommasContinue(d: Layout)
    requires d.commas && CommasEvery(d.body, d.group)
    ensures CommasEvery(Fill(d) + d.body, d.group)
            <==> d.left || d.zeros || (|d.body| + d.Zeros()) / (d.group + 1) == |d.body| / (d.group + 1)
  {
    var t, l, n := Fill(d) + d.body, |d.body|, d.Zeros();
    NoneDue(l, n, d.group);
    forall i: nat | i < l + n
      ensures CommaRight(t, d.group, i) <==> i < l || d.left || d.zeros || !CommaDue(i, d.group)
    {
      if i < l {
        assert CommaRight(d.body, d.group, i);
        assert t[|t| - 1 - i] == d.body[l - 1 - i];
      } else {
        assert t[|t| - 1 - i] == Fill(d)[n + l - 1 - i];
      }
    }
  }

  /** A filled field whose commas are continued begins with one exactly when digits, zeros and commas together are a
      multiple of a group and its comma. */
  lemma LeadingComma(d: Layout)
    requires d.commas && (d.left || d.zeros) && d.Zeros() > 0
    ensures (Fill(d) + d.body)[0] == COMMA <==> (|d.body| + d.Zeros()) % (d.group + 1) == 0
  {
    var x := |d.body| + d.Zeros() - 1;
    assert (Fill(d) + d.body)[0] == Fill(d)[0];
    NextRemainder(x, d.group + 1);
  }

  function ByteOf(c: char): Char8 {
    match c
    case ',' => COMMA
    case '0' => 0x30
    case '1' => 0x31
    case '2' => 0x32
    case '3' => 0x33
    case '4' => 0x34
    case '5' => 0x35
    case '6' => 0x36
    case '7' => 0x37
    case '8' => 0x38
    case '9' => 0x39
    case '+' => 0x2b
    case '-' => 0x2d
    case _ => SPACE
  }

  function Bytes(s: string): (t: Text)
    ensures |t| == |s| && forall i :: 0 <= i < |s| ==> t[i] == ByteOf(s[i])
  {
    seq(|s|, i requires 0 <= i < |s| => ByteOf(s[i]))
  }

  /** The field of %d, %i and %u. */
  function IntegerField(n: nat, sign: string, left: bool, zeros: bool, commas: bool, width: nat,
                        precision: nat): Layout {
    Layout(left, zeros, commas, width, precision, Bytes(sign), Bytes(Numerals.Numeral(n, commas)), 0, [], 3)
  }

  /** The digits of an integer printed with the comma flag have a comma at every fourth place from the right ... */
  lemma IntegerBody(n: nat, sign: string, left: bool, zeros: bool, width: nat, precision: nat)
    ensures CommasEvery(IntegerField(n, sign, left, zeros, true, width, precision).body, 3)
  {
    var d := IntegerField(n, sign, left, zeros, true, width, precision);
    var s := Numerals.Numeral(n, true);
    forall i: nat | i < |d.body|
      ensures CommaRight(d.body, 3, i)
    {
      Numerals.CommaPlaces(n, Numerals.Length(n), i);
      assert d.body[|d.body| - 1 - i] == ByteOf(s[|s| - 1 - i]);
      CommaByte(s[|s| - 1 - i]);
    }
  }

  lemma CommaByte(c: char)
    ensures ByteOf(c) == COMMA <==> c == ','
  {
  }

  /** ... and so has the field with its filling zeros, exactly when it is left-justified or has the 0 flag, or its zeros
      do not reach the next fourth place. */
  lemma IntegerCommas(n: nat, sign: string, left: bool, zeros: bool, width: nat, precision: nat)
    ensures var d := IntegerField(n, sign, left, zeros, true, width, precision);
            CommasEvery(Fill(d) + d.body, 3) <==> left || zeros || (|d.body| + d.Zeros()) / 4 == |d.body| / 4
  {
    IntegerBody(n, sign, left, zeros, width, precision);
    CommasContinue(IntegerField(n, sign, left, zeros, true, width, precision));
  }

  /** The field of %'.12d for 1234567. */
  function BareFilled(): Layout {
    IntegerField(1234567, "", false, false, true, 0, 12)
  }

  /** It has three bare zeros in front of nine characters, and no comma at the twelfth place. */
  lemma BareZeros()
    ensures |BareFilled().body| == 9 && Fill(BareFilled()) == [ZERO, ZERO, ZERO]
    ensures !CommasEvery(Fill(BareFilled()) + BareFilled().body, 3)
  {
    SevenDigits();
    Numerals.WrittenLength(1234567, 7, true);
    IntegerCommas(1234567, "", false, false, 0, 12);
  }

  lemma SevenDigits()
    ensures Numerals.Length(1234567) == 7
  {
    assert Numerals.Length(1234) == 4;
    assert Numerals.Length(123456) == 6;
  }

  // Reading a field

  /** The value of a digit; ten for any other character */
  function DigitOf(b: Char8): nat {
    match b
    case 0x30 => 0
    case 0x31 => 1
    case 0x32 => 2
    case 0x33 => 3
    case 0x34 => 4
    case 0x35 => 5
    case 0x36 => 6
    case 0x37 => 7
    case 0x38 => 8
    case 0x39 => 9
    case _ => 10
  }

  function ValueOf(t: Text): nat {
    if t == [] then 0 else 10 * ValueOf(t[..|t| - 1]) + DigitOf(t[|t| - 1])
  }

  predicate IsExtra(b: Char8) {
    b == SPACE || b == COMMA
  }

  /** Without spaces and commas */
  function Bare(t: Text): Text {
    if t == [] then [] else (if IsExtra(t[0]) then [] else [t[0]]) + Bare(t[1..])
  }

  /** The number that a text stands for, spaces and commas apart: digits behind a sign, if there is one. */
  function Read(t: Text): int {
    var u := Bare(t);
    if u != [] && u[0] == 0x2d then 0 - ValueOf(u[1..])
    else if u != [] && u[0] == 0x2b then ValueOf(u[1..])
    else ValueOf(u)
  }

  lemma {:induction false} BareConcat(a: Text, b: Text)
    ensures Bare(a + b) == Bare(a) + Bare(b)
  {
    if a == [] {
      assert a + b == b;
    } else {
      var t, one := a + b, if IsExtra(a[0]) then [] else [a[0]];
      assert t[0] == a[0] && t[1..] == a[1..] + b;
      BareConcat(a[1..], b);
      assert Bare(t) == one + Bare(t[1..]);
      Regroup(one, Bare(a[1..]), Bare(b));
    }
  }

  lemma {:induction false} BareSpaces(n: nat)
    ensures Bare(Repeat(SPACE, n)) == []
  {
    if n > 0 {
      assert Repeat(SPACE, n)[1..] == Repeat(SPACE, n - 1);
      BareSpaces(n - 1);
    }
  }

  predicate AllZeros(t: Text) {
    forall i :: 0 <= i < |t| ==> t[i] == ZERO
  }

  lemma {:induction false} BareZerosAre(t: Text)
    requires forall i :: 0 <= i < |t| ==> t[i] == ZERO || t[i] == COMMA
    ensures AllZeros(Bare(t))
  {
    if t != [] {
      BareZerosAre(t[1..]);
    }
  }

  /** Zeros in front do not count. */
  lemma {:induction false} ZerosInFront(z: Text, t: Text)
    requires AllZeros(z)
    ensures ValueOf(z + t) == ValueOf(t)
    decreases |z| + |t|
  {
    var u := z + t;
    if t != [] {
      assert u[..|u| - 1] == z + t[..|t| - 1] && u[|u| - 1] == t[|t| - 1];
      ZerosInFront(z, t[..|t| - 1]);
    } else if z != [] {
      assert u == z && z[..|z| - 1] + [] == z[..|z| - 1];
      ZerosInFront(z[..|z| - 1], []);
    }
  }

  predicate DigitsAndCommas(s: string) {
    forall i :: 0 <= i < |s| ==> Numerals.IsDigit(s[i]) || s[i] == ','
  }

  lemma DigitByte(c: char)
    requires Numerals.IsDigit(c)
    ensures DigitOf(ByteOf(c)) == Numerals.DigitValue(c) && !IsExtra(ByteOf(c)) && ByteOf(c) != 0x2d
    ensures ByteOf(c) != 0x2b
  {
  }

  lemma {:induction false} BareBytes(s: string)
    requires DigitsAndCommas(s)
    ensures Bare(Bytes(s)) == Bytes(Numerals.WithoutCommas(s)) && Numerals.AllDigits(Numerals.WithoutCommas(s))
  {
    if s != [] {
      assert Bytes(s)[1..] == Bytes(s[1..]);
      BareBytes(s[1..]);
      CommaByte(s[0]);
      if s[0] != ',' {
        DigitByte(s[0]);
        assert Bytes([s[0]] + Numerals.WithoutCommas(s[1..])) == [ByteOf(s[0])] + Bytes(Numerals.WithoutCommas(s[1..]));
      }
    }
  }

  lemma {:induction false} DigitsRead(s: string)
    requires Numerals.AllDigits(s)
    ensures ValueOf(Bytes(s)) == Numerals.Parse(s)
  {
    if s != [] {
      assert Bytes(s)[..|s| - 1] == Bytes(s[..|s| - 1]);
      DigitsRead(s[..|s| - 1]);
      DigitByte(s[|s| - 1]);
    }
  }

  /** The digits of an integer, spaces and commas apart, have its value, with any zeros in front. */
  lemma NumeralReads(n: nat, commas: bool, z: Text)
    requires AllZeros(z)
    ensures var t := z + Bare(Bytes(Numerals.Numeral(n, commas)));
            ValueOf(t) == n && t != [] && t[0] != 0x2d && t[0] != 0x2b
  {
    var s := Numerals.Numeral(n, commas);
    NumeralShape(n, commas);
    BareBytes(s);
    var plain := Numerals.WithoutCommas(s);
    ZerosInFront(z, Bytes(plain));
    DigitsRead(plain);
    DigitByte(plain[0]);
  }

  lemma NumeralShape(n: nat, commas: bool)
    ensures DigitsAndCommas(Numerals.Numeral(n, commas))
    ensures var plain := Numerals.WithoutCommas(Numerals.Numeral(n, commas));
            plain != [] && Numerals.AllDigits(plain) && Numerals.Parse(plain) == n
  {
    Numerals.NumeralReadsBack(n, commas);
    if commas {
      CommasAndDigits(Numerals.Numeral(n, commas));
    } else {
      Numerals.PlainNumeral(n);
      Numerals.DecimalIsCanonical(n);
      NothingExtra(Numerals.Numeral(n, commas));
    }
  }

  lemma {:induction false} CommasAndDigits(s: string)
    requires Numerals.AllDigits(Numerals.WithoutCommas(s))
    ensures DigitsAndCommas(s)
  {
    if s != [] {
      var rest := Numerals.WithoutCommas(s[1..]);
      if s[0] != ',' {
        assert Numerals.WithoutCommas(s)[0] == s[0] && Numerals.WithoutCommas(s)[1..] == rest;
      } else {
        assert Numerals.WithoutCommas(s) == rest;
      }
      CommasAndDigits(s[1..]);
      assert forall i :: 0 < i < |s| ==> s[i] == s[1..][i - 1];
    }
  }

  lemma {:induction false} NothingExtra(s: string)
    requires Numerals.AllDigits(s)
    ensures Numerals.WithoutCommas(s) == s
  {
    if s != [] {
      NothingExtra(s[1..]);
    }
  }

  lemma BareParts(p: Text, l: Text, f: Text, y: Text, q: Text)
    requires Bare(p) == [] && Bare(q) == []
    ensures Bare(p + (l + (f + y)) + q) == Bare(l) + (Bare(f) + Bare(y))
  {
    BareConcat(p + (l + (f + y)), q);
    BareConcat(p, l + (f + y));
    BareConcat(l, f + y);
    BareConcat(f, y);
  }

  lemma FieldWithoutTail(d: Layout)
    requires d.trailing == 0 && d.tail == []
    ensures var before := if d.left then 0 else d.Spaces();
            FieldText(d) == Repeat(SPACE, before) + (d.lead + (Fill(d) + d.body)) + Repeat(SPACE, d.Spaces() - before)
  {
    var before := if d.left then 0 else d.Spaces();
    var p, q := Repeat(SPACE, before), Repeat(SPACE, d.Spaces() - before);
    FieldIs(d);
    NothingBetween(p + d.lead + Fill(d) + d.body, Repeat(ZERO, d.trailing), d.tail, q);
    Regroup(p, d.lead, Fill(d));
    Regroup(p, d.lead + Fill(d), d.body);
    Regroup(d.lead, Fill(d), d.body);
  }

  lemma NothingBetween(t: Text, z: Text, u: Text, q: Text)
    requires z == [] && u == []
    ensures t + z + u + q == t + q
  {
  }

  /** What is left of an integer field: its sign, unless that is a space, zeros and the digits. */
  lemma BareField(d: Layout)
    requires d.trailing == 0 && d.tail == []
    ensures Bare(FieldText(d)) == Bare(d.lead) + (Bare(Fill(d)) + Bare(d.body)) && AllZeros(Bare(Fill(d)))
  {
    var before := if d.left then 0 else d.Spaces();
    FieldWithoutTail(d);
    BareSpaces(before);
    BareSpaces(d.Spaces() - before);
    BareParts(Repeat(SPACE, before), d.lead, Fill(d), d.body, Repeat(SPACE, d.Spaces() - before));
    BareZerosAre(Fill(d));
  }

  lemma SignBytes(sign: string)
    requires sign in {"", " ", "+", "-"}
    ensures Bare(Bytes(sign)) == if sign == "-" then [0x2d] else if sign == "+" then [0x2b] else []
  {
    if sign != "" {
      assert Bytes(sign) == [ByteOf(sign[0])] && Bytes(sign)[1..] == [];
    }
  }

  /** A printed integer reads back, whatever the flags, the width and the precision are. */
  lemma FieldReadsBack(n: nat, sign: string, left: bool, zeros: bool, commas: bool, width: nat, precision: nat)
    requires sign in {"", " ", "+", "-"}
    ensures var d := IntegerField(n, sign, left, zeros, commas, width, precision);
            Read(FieldText(d)) == if sign == "-" then 0 - n else n
  {
    var d := IntegerField(n, sign, left, zeros, commas, width, precision);
    BareField(d);
    SignBytes(sign);
    NumeralReads(n, commas, Bare(Fill(d)));
    SignedReads(FieldText(d), sign, Bare(Fill(d)) + Bare(d.body));
  }

  lemma SignedReads(t: Text, sign: string, u: Text)
    requires sign in {"", " ", "+", "-"} && u != [] && u[0] != 0x2d && u[0] != 0x2b
    requires Bare(t) == (if sign == "-" then [0x2d] else if sign == "+" then [0x2b] else []) + u
    ensures Read(t) == if sign == "-" then 0 - ValueOf(u) else ValueOf(u)
  {
    if sign == "-" || sign == "+" {
      assert Bare(t)[1..] == u;
    } else {
      assert Bare(t) == u;
    }
  }

  /** %d prints every 32- and 64-bit value so that it reads back. */
  lemma IntegerReadsBack(i: int, m: nat, space: bool, plus: bool, left: bool, zeros: bool, commas: bool,
                         width: nat, precision: nat)
    requires Numerals.IsModulus(m) && 0 <= 2 * i + m < 2 * m
    ensures var sign := Numerals.Sign(i < 0, space, plus);
            Read(FieldText(IntegerField(Numerals.Magnitude(i, m), sign, left, zeros, commas, width, precision))) == i
  {
    Numerals.MagnitudeIs(i, m);
    FieldReadsBack(Numerals.Magnitude(i, m), Numerals.Sign(i < 0, space, plus), left, zeros, commas, width, precision);
  }
}
