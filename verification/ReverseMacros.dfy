/** REVERSE32 and REVERSE64: on the machine's words, as the shifts and masks of the macros, and on the
    bytes these words have in memory. */
module ReverseMacros {
  import opened MachineWords
  import opened Sha2Bytes

  function Reverse32(x: bv32): bv32 {
    var tmp := (x >> 16) | (x << 16);
    ((tmp & 0xff00ff00) >> 8) | ((tmp & 0x00ff00ff) << 8)
  }

  function Reverse64(x: bv64): bv64 {
    var swapped := (x >> 32) | (x << 32);
    var tmp := ((swapped & 0xff00ff00ff00ff00) >> 8) | ((swapped & 0x00ff00ff00ff00ff) << 8);
    ((tmp & 0xffff0000ffff0000) >> 16) | ((tmp & 0x0000ffff0000ffff) << 16)
  }

  // ---------------------------------------------------------------- words and their numbers

  lemma Number32(x: bv32, a: bv8, b: bv8, c: bv8, d: bv8)
    requires x == (a as bv32) | ((b as bv32) << 8) | ((c as bv32) << 16) | ((d as bv32) << 24)
    ensures x as int == a as int + 0x100 * (b as int) + 0x1_0000 * (c as int) + 0x100_0000 * (d as int)
  {
  }

  lemma Number64(x: bv64, a: bv8, b: bv8, c: bv8, d: bv8, e: bv8, f: bv8, g: bv8, h: bv8)
    requires x == (a as bv64) | ((b as bv64) << 8) | ((c as bv64) << 16) | ((d as bv64) << 24)
                  | ((e as bv64) << 32) | ((f as bv64) << 40) | ((g as bv64) << 48) | ((h as bv64) << 56)
    ensures x as int
         == a as int + 0x100 * (b as int) + 0x1_0000 * (c as int) + 0x100_0000 * (d as int)
            + 0x1_0000_0000 * (e as int) + 0x100_0000_0000 * (f as int)
            + 0x1_0000_0000_0000 * (g as int) + 0x100_0000_0000_0000 * (h as int)
  {
  }

  /** The word whose bytes, lowest first, are these. */
  function Word32(a: bv8, b: bv8, c: bv8, d: bv8): bv32 {
    (a as bv32) | ((b as bv32) << 8) | ((c as bv32) << 16) | ((d as bv32) << 24)
  }

  function Word64(a: bv8, b: bv8, c: bv8, d: bv8, e: bv8, f: bv8, g: bv8, h: bv8): bv64 {
    (a as bv64) | ((b as bv64) << 8) | ((c as bv64) << 16) | ((d as bv64) << 24)
    | ((e as bv64) << 32) | ((f as bv64) << 40) | ((g as bv64) << 48) | ((h as bv64) << 56)
  }

  lemma NextBits(u: bv8)
    requires u != 255
    ensures (u + 1) as int == u as int + 1
  {
  }

  /** A byte and its eight bits. */
  lemma {:induction false} ByteBits(i: Byte) returns (v: bv8)
    ensures v as int == i
    decreases i
  {
    if i == 0 {
      v := 0;
    } else {
      var u := ByteBits(i - 1);
      assert u != 255;
      NextBits(u);
      v := u + 1;
    }
  }

  lemma Host4(b: Bytes)
    requires |b| == 4
    ensures Host(b) == (b[0] as int) + 0x100 * (b[1] as int) + 0x1_0000 * (b[2] as int) + 0x100_0000 * (b[3] as int)
  {
    assert b[1..][1..] == b[2..] && b[2..][1..] == b[3..] && b[3..][1..] == [];
    assert Host(b[3..]) == b[3] && Host(b[2..]) == b[2] + 256 * Host(b[3..]);
    assert Host(b[1..]) == b[1] + 256 * Host(b[2..]);
  }

  lemma Host8(b: Bytes)
    requires |b| == 8
    ensures Host(b) == Host(b[..4]) + 0x1_0000_0000 * Host(b[4..])
  {
    HostSplit(b[..4], b[4..]);
    assert b[..4] + b[4..] == b;
    Host4(b[..4]);
    Host4(b[4..]);
    RaiseFour(Host(b[4..]), 0);
  }

  lemma {:induction false} HostSplit(a: Bytes, b: Bytes)
    ensures Host(a + b) == Host(a) + Raise(Host(b), |a|)
  {
    if a == [] {
      assert a + b == b;
    } else {
      assert (a + b)[1..] == a[1..] + b;
      HostSplit(a[1..], b);
    }
  }

  /** Four bytes in memory and their bits. */
  ghost predicate Bits4(m: Bytes, a: bv8, b: bv8, c: bv8, d: bv8) {
    |m| == 4 && a as int == m[0] && b as int == m[1] && c as int == m[2] && d as int == m[3]
  }

  /** The word stored as these bytes has their number. */
  lemma Stored32(m: Bytes, a: bv8, b: bv8, c: bv8, d: bv8)
    requires Bits4(m, a, b, c, d)
    ensures Word32(a, b, c, d) as int == Host(m)
  {
    Number32(Word32(a, b, c, d), a, b, c, d);
    Host4(m);
  }

  lemma Stored64(m: Bytes, a: bv8, b: bv8, c: bv8, d: bv8, e: bv8, f: bv8, g: bv8, h: bv8)
    requires |m| == 8 && Bits4(m[..4], a, b, c, d) && Bits4(m[4..], e, f, g, h)
    ensures Word64(a, b, c, d, e, f, g, h) as int == Host(m)
  {
    Number64(Word64(a, b, c, d, e, f, g, h), a, b, c, d, e, f, g, h);
    Host4(m[..4]);
    Host4(m[4..]);
    Host8(m);
  }

  // ---------------------------------------------------------------- the macros reverse bytes

  lemma Shuffled32(a: bv8, b: bv8, c: bv8, d: bv8)
    ensures var x := (a as bv32) | ((b as bv32) << 8) | ((c as bv32) << 16) | ((d as bv32) << 24);
            var tmp := (x >> 16) | (x << 16);
            ((tmp & 0xff00ff00) >> 8) | ((tmp & 0x00ff00ff) << 8)
            == (d as bv32) | ((c as bv32) << 8) | ((b as bv32) << 16) | ((a as bv32) << 24)
  {
  }

  lemma Reverse32Reverses(a: bv8, b: bv8, c: bv8, d: bv8)
    ensures Reverse32(Word32(a, b, c, d)) == Word32(d, c, b, a)
  {
    Shuffled32(a, b, c, d);
  }

  lemma Shuffled64(a: bv8, b: bv8, c: bv8, d: bv8, e: bv8, f: bv8, g: bv8, h: bv8)
    ensures var x := (a as bv64) | ((b as bv64) << 8) | ((c as bv64) << 16) | ((d as bv64) << 24)
                     | ((e as bv64) << 32) | ((f as bv64) << 40) | ((g as bv64) << 48) | ((h as bv64) << 56);
            var swapped := (x >> 32) | (x << 32);
            var tmp := ((swapped & 0xff00ff00ff00ff00) >> 8) | ((swapped & 0x00ff00ff00ff00ff) << 8);
            ((tmp & 0xffff0000ffff0000) >> 16) | ((tmp & 0x0000ffff0000ffff) << 16)
            == (h as bv64) | ((g as bv64) << 8) | ((f as bv64) << 16) | ((e as bv64) << 24)
               | ((d as bv64) << 32) | ((c as bv64) << 40) | ((b as bv64) << 48) | ((a as bv64) << 56)
  {
  }

  lemma Reverse64Reverses(a: bv8, b: bv8, c: bv8, d: bv8, e: bv8, f: bv8, g: bv8, h: bv8)
    ensures Reverse64(Word64(a, b, c, d, e, f, g, h)) == Word64(h, g, f, e, d, c, b, a)
  {
    Shuffled64(a, b, c, d, e, f, g, h);
  }

  // ---------------------------------------------------------------- in memory

  lemma {:induction false} LittleEndianOfHost(b: Bytes)
    ensures LittleEndian(Host(b), |b|) == b
  {
    if b != [] {
      LittleEndianOfHost(b[1..]);
      LowByte(b[0], Host(b[1..]));
      assert b == [b[0]] + b[1..];
    }
  }

  lemma LowByte(x: Byte, rest: nat)
    ensures (x + 256 * rest) / 256 == rest && (x + 256 * rest) % 256 == x
  {
  }

  lemma {:induction false} HostBound(b: Bytes)
    ensures Host(b) < Raise(1, |b|)
  {
    if b != [] {
      HostBound(b[1..]);
    }
  }

  lemma HostFits(b: Bytes, w: nat)
    requires WordSize(w) && |b| == w
    ensures Host(b) < if w == 4 then TWO32 else TWO64
  {
    HostBound(b);
    RaiseWord(1, w);
  }

  /** The bytes of a word after the macro has been applied to it: the word is read, its bits are
      moved, and it is stored again. */
  function ApplyReverse(b: Bytes, w: nat): (r: Bytes)
    requires WordSize(w) && |b| == w
    ensures |r| == w
  {
    HostFits(b, w);
    if w == 4 then LittleEndian(Reverse32(Host(b) as bv32) as int, 4)
    else LittleEndian(Reverse64(Host(b) as bv64) as int, 8)
  }

  lemma FourReversed(b: Bytes)
    requires |b| == 4
    ensures Reversed(b) == [b[3], b[2], b[1], b[0]]
  {
    assert b == [b[0]] + [b[1], b[2], b[3]];
    ReversedPrepend(b[0], [b[1], b[2], b[3]]);
    assert [b[1], b[2], b[3]] == [b[1]] + [b[2], b[3]] && [b[2], b[3]] == [b[2]] + [b[3]];
    ReversedPrepend(b[1], [b[2], b[3]]);
    ReversedPrepend(b[2], [b[3]]);
    ReversedPrepend(b[3], []);
    assert [b[3]] + [] == [b[3]];
  }

  lemma Read32(x: bv32, n: int)
    requires x as int == n
    ensures 0 <= n < TWO32 && n as bv32 == x
  {
  }

  lemma Read64(x: bv64, n: int)
    requires x as int == n
    ensures 0 <= n < TWO64 && n as bv64 == x
  {
  }

  lemma Apply32(m: Bytes)
    requires |m| == 4
    ensures ApplyReverse(m, 4) == Reversed(m)
  {
    var a, b, c, d := HalfBits(m);
    Stored32(m, a, b, c, d);
    Stored32(Reversed(m), d, c, b, a);
    Reverse32Reverses(a, b, c, d);
    Read32(Word32(a, b, c, d), Host(m));
    LittleEndianOfHost(Reversed(m));
  }

  lemma EightReversed(m: Bytes)
    requires |m| == 8
    ensures Reversed(m)[..4] == Reversed(m[4..]) && Reversed(m)[4..] == Reversed(m[..4])
  {
    ReversedJoin(m[..4], m[4..]);
    assert m[..4] + m[4..] == m;
  }

  lemma {:induction false} ReversedJoin(a: Bytes, b: Bytes)
    ensures Reversed(a + b) == Reversed(b) + Reversed(a)
  {
    if a == [] {
      assert a + b == b;
    } else {
      ReversedJoin(a[1..], b);
      ReversedJoins(a[0], a[1..], b);
      assert [a[0]] + a[1..] == a;
    }
  }

  lemma ReversedJoins(first: Byte, rest: Bytes, b: Bytes)
    requires Reversed(rest + b) == Reversed(b) + Reversed(rest)
    ensures Reversed([first] + rest + b) == Reversed(b) + Reversed([first] + rest)
  {
    ReversedPrepend(first, rest);
    ReversedPrepend(first, rest + b);
    Associate([first], rest, b);
    Associate(Reversed(b), Reversed(rest), [first]);
  }

  lemma HalfBits(m: Bytes) returns (a: bv8, b: bv8, c: bv8, d: bv8)
    requires |m| == 4
    ensures Bits4(m, a, b, c, d) && Bits4(Reversed(m), d, c, b, a)
  {
    a := ByteBits(m[0]);
    b := ByteBits(m[1]);
    c := ByteBits(m[2]);
    d := ByteBits(m[3]);
    FourReversed(m);
  }

  lemma Apply64(m: Bytes)
    requires |m| == 8
    ensures ApplyReverse(m, 8) == Reversed(m)
  {
    var a, b, c, d := HalfBits(m[..4]);
    var e, f, g, h := HalfBits(m[4..]);
    EightReversed(m);
    Stored64(m, a, b, c, d, e, f, g, h);
    Stored64(Reversed(m), h, g, f, e, d, c, b, a);
    Reverse64Reverses(a, b, c, d, e, f, g, h);
    Read64(Word64(a, b, c, d, e, f, g, h), Host(m));
    LittleEndianOfHost(Reversed(m));
  }

  /** The macros are a reversal of the word's bytes in memory, for either word size. */
  lemma MacroReverses(m: Bytes, w: nat)
    requires WordSize(w) && |m| == w
    ensures ApplyReverse(m, w) == Reversed(m)
  {
    if w == 4 {
      Apply32(m);
    } else {
      Apply64(m);
    }
  }
}
