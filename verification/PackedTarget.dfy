/** `compute_targetv1_invzeros`: how many times the target exceeds the hash, packed into a word with
    a complemented exponent byte on top and a 24-bit mantissa whose leading one is bit 23.  The
    hash has eight words in the source; nothing here depends on that number. */
module PackedTarget {
  import opened MachineWords
  import opened Sha2Bytes

  const CEILING := 0xFFFF_FFFF
  const FLOOR := 0x0080_0000

  function Shl(x: nat, n: nat): nat {
    if n == 0 then x else 2 * Shl(x, n - 1)
  }

  function Shr(x: nat, n: nat): nat
    decreases n
  {
    if n == 0 then x else Shr(x / 2, n - 1)
  }

  /** `htobe32` on the little-endian host that the pointer casts of the source assume. */
  function ByteSwap(x: u32): u32 {
    (x % 0x100) * 0x100_0000 + (x / 0x100 % 0x100) * 0x1_0000
    + (x / 0x1_0000 % 0x100) * 0x100 + x / 0x100_0000
  }

  /** The hash as a number: big-endian words, the first on top. */
  function Value(hash: seq<u32>): nat {
    if hash == [] then 0
    else Value(hash[..|hash| - 1]) * TWO32 + ByteSwap(hash[|hash| - 1])
  }

  /** The hash's words as they lie in memory. */
  function Memory(hash: seq<u32>): Bytes {
    if hash == [] then [] else Memory(hash[..|hash| - 1]) + LittleEndian(hash[|hash| - 1], 4)
  }

  /** The value is the big-endian number that the hash's bytes spell. */
  lemma {:induction false} ValueOfMemory(hash: seq<u32>)
    ensures Value(hash) == Number(Memory(hash))
  {
    if hash != [] {
      var h, w := hash[..|hash| - 1], hash[|hash| - 1];
      ValueOfMemory(h);
      WordOfMemory(w);
      NumberJoin(Memory(h), LittleEndian(w, 4));
    }
  }

  lemma WordOfMemory(w: u32)
    ensures Number(LittleEndian(w, 4)) == ByteSwap(w)
  {
    var b := LittleEndian(w, 4);
    assert b == [w % 256] + ([w / 256 % 256] + ([w / 256 / 256 % 256] + LittleEndian(w / 256 / 256 / 256, 1)));
    NumberOfFour(b);
    Divisions(w);
  }

  lemma Divisions(w: u32)
    ensures w / 256 / 256 == w / 0x1_0000 && w / 256 / 256 / 256 == w / 0x100_0000
    ensures w / 0x100_0000 % 256 == w / 0x100_0000
  {
  }

  lemma NumberJoin(a: Bytes, b: Bytes)
    requires |b| == 4
    ensures Number(a + b) == Number(a) * TWO32 + Number(b)
  {
    NumberAppend(a, b[0]);
    NumberAppend(a + [b[0]], b[1]);
    NumberAppend(a + [b[0]] + [b[1]], b[2]);
    NumberAppend(a + [b[0]] + [b[1]] + [b[2]], b[3]);
    assert a + [b[0]] + [b[1]] + [b[2]] + [b[3]] == a + b;
    NumberOfFour(b);
  }

  lemma NumberAppend(a: Bytes, x: Byte)
    ensures Number(a + [x]) == Number(a) * 256 + x
  {
    assert (a + [x])[..|a|] == a;
  }

  // ---------------------------------------------------------------- shifts

  lemma {:induction false} ShlRange(x: nat, n: nat, z: nat)
    ensures x < Pow2(n) <==> Shl(x, z) < Pow2(n + z)
  {
    if z > 0 { ShlRange(x, n, z - 1); }
  }

  lemma {:induction false} ShrRange(x: nat, n: nat, k: nat)
    ensures Shr(x, n) < Pow2(k) <==> x < Pow2(k + n)
    decreases n
  {
    if n > 0 { ShrRange(x / 2, n - 1, k); }
  }

  lemma {:induction false} ShlMonotone(x: nat, y: nat, n: nat)
    requires x <= y
    ensures Shl(x, n) <= Shl(y, n)
  {
    if n > 0 { ShlMonotone(x, y, n - 1); }
  }

  lemma {:induction false} ShrMonotone(x: nat, y: nat, n: nat)
    requires x <= y
    ensures Shr(x, n) <= Shr(y, n)
    decreases n
  {
    if n > 0 { ShrMonotone(x / 2, y / 2, n - 1); }
  }

  lemma {:induction false} ShrHalf(x: nat, n: nat)
    ensures Shr(x, n) / 2 == Shr(x / 2, n)
    decreases n
  {
    if n > 0 { ShrHalf(x / 2, n - 1); }
  }

  lemma {:induction false} ShrAdd(x: nat, m: nat, n: nat)
    ensures Shr(Shr(x, m), n) == Shr(x, m + n)
    decreases m
  {
    if m > 0 { ShrAdd(x / 2, m - 1, n); }
  }

  lemma ShlHalf(x: nat, m: nat)
    requires m > 0
    ensures Shl(x, m) / 2 == Shl(x, m - 1)
  {
  }

  /** Shifting left and then further right leaves the difference d. */
  lemma {:induction false} ShlShr(x: nat, m: nat, n: nat, d: nat)
    requires n == m + d
    ensures Shr(Shl(x, m), n) == Shr(x, d)
  {
    if m > 0 {
      ShlHalf(x, m);
      ShlShr(x, m - 1, n - 1, d);
    }
  }

  lemma {:induction false} ShlShrLess(x: nat, m: nat, n: nat, d: nat)
    requires m == n + d
    ensures Shr(Shl(x, m), n) == Shl(x, d)
    decreases n
  {
    if n > 0 {
      ShlHalf(x, m);
      ShlShrLess(x, m - 1, n - 1, d);
    }
  }

  lemma Shr32(x: nat)
    ensures Shr(x, 32) == x / TWO32
  {
    Shr8(x);
    Shr8(x / 0x100);
    ShrAdd(x, 8, 8);
    Shr8(x / 0x1_0000);
    ShrAdd(x, 16, 8);
    Shr8(x / 0x100_0000);
    ShrAdd(x, 24, 8);
  }

  lemma Shr8(x: nat)
    ensures Shr(x, 8) == x / 0x100
  {
    assert Shr(x, 8) == Shr(x / 2, 7) == Shr(x / 4, 6) == Shr(x / 8, 5) == Shr(x / 16, 4);
    assert Shr(x / 16, 4) == Shr(x / 32, 3) == Shr(x / 64, 2) == Shr(x / 128, 1) == x / 256;
  }

  lemma Shl32(x: nat)
    ensures Shl(x, 32) == x * TWO32
  {
    Shl8(x, 0);
    Shl8(x, 8);
    Shl8(x, 16);
    Shl8(x, 24);
  }

  lemma Shl8(x: nat, n: nat)
    ensures Shl(x, n + 8) == Shl(x, n) * 0x100
  {
    assert Shl(x, n + 8) == 2 * Shl(x, n + 7) == 4 * Shl(x, n + 6) == 8 * Shl(x, n + 5);
    assert Shl(x, n + 5) == 2 * Shl(x, n + 4) == 4 * Shl(x, n + 3) == 8 * Shl(x, n + 2);
    assert Shl(x, n + 2) == 2 * Shl(x, n + 1) == 4 * Shl(x, n);
  }

  lemma Powers()
    ensures Pow2(31) == TWO31 && Pow2(32) == TWO32
  {
    PowIsShl(32);
    Shl32(1);
    assert Pow2(32) == 2 * Pow2(31);
  }

  lemma {:induction false} PowIsShl(n: nat)
    ensures Pow2(n) == Shl(1, n)
  {
    if n > 0 { PowIsShl(n - 1); }
  }

  lemma {:induction false} PowMonotone(a: nat, b: nat)
    requires a <= b
    ensures Pow2(a) <= Pow2(b)
  {
    if a < b { PowMonotone(a, b - 1); }
  }

  // ---------------------------------------------------------------- normalisation

  /** z is the number of leading zero bits of v as a number of `bits` bits. */
  ghost predicate LeadingZeros(bits: nat, v: nat, z: nat) {
    z < bits && Pow2(bits - 1 - z) <= v < Pow2(bits - z)
  }

  function ZeroCount(bits: nat, v: nat): (z: nat)
    ensures z <= bits
    ensures 0 < v < Pow2(bits) ==> LeadingZeros(bits, v, z)
  {
    if bits == 0 || v >= Pow2(bits - 1) then 0 else 1 + ZeroCount(bits - 1, v)
  }

  lemma CountIsUnique(bits: nat, v: nat, y: nat, z: nat)
    requires LeadingZeros(bits, v, y) && LeadingZeros(bits, v, z)
    ensures y == z
  {
    if y < z { PowMonotone(bits - z, bits - 1 - y); }
    if z < y { PowMonotone(bits - y, bits - 1 - z); }
  }

  /** The top 32 of `bits` bits after v is shifted left by z, with what the shift pushed out above. */
  function Normalized(bits: nat, v: nat, z: nat): nat
    requires bits >= 32
  {
    Shr(Shl(v, z), bits - 32)
  }

  /** A shift leaves exactly 32 bits iff it removes exactly the leading zeros. */
  lemma NormalizedIffLeadingZeros(bits: nat, v: nat, z: nat)
    requires bits >= 32 && z <= bits
    ensures z < bits ==> (LeadingZeros(bits, v, z) <==> TWO31 <= Normalized(bits, v, z) < TWO32)
    ensures z == bits ==> v == 0 || Normalized(bits, v, z) >= TWO32
  {
    Powers();
    ShrRange(Shl(v, z), bits - 32, 32);
    ShlRange(v, bits - z, z);
    ShrRange(Shl(v, z), bits - 32, 31);
    if z < bits { ShlRange(v, bits - 1 - z, z); }
  }

  /** One right shift of the window is one fewer leading zero. */
  lemma ShiftRight(bits: nat, v: nat, z: nat)
    requires bits >= 32 && z > 0
    ensures Normalized(bits, v, z) / 2 == Normalized(bits, v, z - 1)
  {
    ShrHalf(Shl(v, z), bits - 32);
  }

  lemma HashzerosPositive(bits: nat, v: nat, z: nat)
    requires bits >= 32 && v < Pow2(bits) && Normalized(bits, v, z) >= TWO32
    ensures z > 0
  {
    Powers();
    ShrRange(v, bits - 32, 32);
  }

  lemma {:induction false} ZeroHash(bits: nat, z: nat)
    requires bits >= 32
    ensures Normalized(bits, 0, z) == 0
  {
    ShlZero(z);
    ShrZero(bits - 32);
  }

  lemma {:induction false} ShlZero(z: nat)
    ensures Shl(0, z) == 0
  {
    if z > 0 { ShlZero(z - 1); }
  }

  lemma {:induction false} ShrZero(n: nat)
    ensures Shr(0, n) == 0
  {
    if n > 0 { ShrZero(n - 1); }
  }

  lemma ZerosAreCounted(bits: nat, v: nat, z: nat)
    requires bits >= 32 && v < Pow2(bits) && z <= bits
    requires TWO31 <= Normalized(bits, v, z) < TWO32
    ensures v > 0 && z == ZeroCount(bits, v)
  {
    ZeroHash(bits, z);
    NormalizedIffLeadingZeros(bits, v, z);
    CountIsUnique(bits, v, z, ZeroCount(bits, v));
  }

  // ---------------------------------------------------------------- the hash's words

  lemma {:induction false} ValueBound(hash: seq<u32>)
    ensures Value(hash) < Pow2(32 * |hash|)
  {
    if hash != [] {
      var h := hash[..|hash| - 1];
      ValueBound(h);
      Shl32(Value(h) + 1);
      PowIsShl(32 * |h|);
      PowIsShl(32 * |hash|);
      ShlMonotone(Value(h) + 1, Shl(1, 32 * |h|), 32);
      ShlAdd(1, 32 * |h|, 32);
    }
  }

  lemma {:induction false} ShlAdd(x: nat, m: nat, n: nat)
    ensures Shl(Shl(x, m), n) == Shl(x, m + n)
  {
    if n > 0 { ShlAdd(x, m, n - 1); }
  }

  /** Dropping the last words is a right shift. */
  lemma {:induction false} ValuePrefix(hash: seq<u32>, n: nat)
    requires n <= |hash|
    ensures Value(hash[..n]) == Shr(Value(hash), 32 * (|hash| - n))
    decreases |hash| - n
  {
    if n == |hash| {
      assert hash[..n] == hash;
    } else {
      ValuePrefix(hash, n + 1);
      assert hash[..n + 1][..n] == hash[..n];
      Shr32(Value(hash[..n + 1]));
      ShrAdd(Value(hash), 32 * (|hash| - n - 1), 32);
    }
  }

  /** The first 64 bits from word i on, as the pointer casts read them. */
  function Window(hash: seq<u32>, i: nat): (w: nat)
    requires i < |hash|
  {
    ByteSwap(hash[i]) * TWO32 + (if i + 1 < |hash| then ByteSwap(hash[i + 1]) else 0)
  }

  lemma WindowIsPrefix(hash: seq<u32>, i: nat)
    requires i + 1 < |hash| && Value(hash[..i]) == 0
    ensures Value(hash[..i + 2]) == Window(hash, i)
  {
    assert hash[..i + 1][..i] == hash[..i];
    assert hash[..i + 2][..i + 1] == hash[..i + 1];
  }

  /** The window that starts at the first non-zero word is the hash shifted left by 32 bits more than
      the zero words before it. */
  lemma WindowOfHash(hash: seq<u32>, i: nat)
    requires i < |hash| && Value(hash[..i]) == 0
    ensures Normalized(32 * |hash|, Value(hash), 32 * (i + 1)) == Window(hash, i)
  {
    if i + 1 < |hash| {
      WindowIsPrefix(hash, i);
      ValuePrefix(hash, i + 2);
      ShlShr(Value(hash), 32 * (i + 1), 32 * |hash| - 32, 32 * (|hash| - (i + 2)));
    } else {
      LastWindow(hash);
    }
  }

  lemma LastWindow(hash: seq<u32>)
    requires |hash| > 0 && Value(hash[..|hash| - 1]) == 0
    ensures Normalized(32 * |hash|, Value(hash), 32 * |hash|) == Window(hash, |hash| - 1)
  {
    ShlShrLess(Value(hash), 32 * |hash|, 32 * |hash| - 32, 32);
    Shl32(Value(hash));
  }

  // ---------------------------------------------------------------- packing the target word

  predicate GoodBits(bits22: nat) {
    0x20_0000 <= bits22 < 0x40_0000
  }

  /** The target's mantissa divided by the normalised hash has 32 or 33 bits. */
  function Quotient(bits22: nat, hbits: int): (q: int)
    requires GoodBits(bits22) && TWO31 <= hbits < TWO32
    ensures TWO31 <= q < 2 * TWO32
  {
    DivWithin(bits22 * 0x400_0000_0000, hbits);
    bits22 * 0x400_0000_0000 / hbits
  }

  lemma DivBounds(a: nat, d: nat)
    requires d > 0
    ensures (a / d) * d <= a < (a / d + 1) * d
  {
  }

  lemma MulLess(a: int, b: int, d: nat)
    requires a * d < b * d
    ensures a < b
  {
    assert (b - a) * d > 0;
  }

  lemma DivWithin(a: nat, d: nat)
    requires TWO31 <= d < TWO32
    requires 0x8000_0000_0000_0000 <= a < 0x1_0000_0000_0000_0000
    ensures TWO31 <= a / d < 2 * TWO32
  {
    DivBounds(a, d);
    MulLess(TWO31, a / d + 1, d);
    MulLess(a / d, 2 * TWO32, d);
  }

  lemma MulAtMost(a: nat, b: nat, c: nat)
    requires a <= b
    ensures c * a <= c * b
  {
    assert c * (b - a) >= 0;
  }

  lemma QuotientAntitone(bits22: nat, d: int, e: int)
    requires GoodBits(bits22) && TWO31 <= d <= e < TWO32
    ensures Quotient(bits22, d) >= Quotient(bits22, e)
  {
    var a := bits22 * 0x400_0000_0000;
    var p, q := a / d, a / e;
    DivBounds(a, e);
    DivBounds(a, d);
    MulAtMost(d, e, q);
    MulLess(q, p + 1, d);
  }

  /** Any two normalised hashes differ by less than a factor of two, so their quotients differ by at
      most that. */
  lemma QuotientHalf(bits22: nat, d: int, e: int)
    requires GoodBits(bits22) && TWO31 <= d < TWO32 && TWO31 <= e < TWO32
    ensures Quotient(bits22, d) >= Quotient(bits22, e) / 2
  {
    var a := bits22 * 0x400_0000_0000;
    var p, h := a / d, a / e / 2;
    DivBounds(a, e);
    DivBounds(a, d);
    MulAtMost(d, 2 * e, h);
    MulAtMost(2 * h, a / e, e);
    MulLess(h, p + 1, d);
  }

  function Pack(zeros: nat, mantissa: int): (r: int)
    requires zeros < 255 && 0x80_0000 <= mantissa < 0x100_0000
    ensures FLOOR < r <= CEILING
  {
    mantissa + (255 - zeros) * 0x100_0000
  }

  /** The result for a hash with z leading zeros; a quotient of 33 bits costs one of the zeros. */
  function Encode(targetZeros: nat, z: nat, q: int): (r: int)
    requires TWO31 <= q < 2 * TWO32
    ensures FLOOR <= r <= CEILING
  {
    if targetZeros < z then CEILING
    else
      var zeros := targetZeros - z;
      if q >= TWO32 then
        if zeros == 0 then CEILING
        else if zeros - 1 >= 255 then FLOOR
        else Pack(zeros - 1, q / 512)
      else if zeros >= 255 then FLOOR
      else Pack(zeros, q / 256)
  }

  /** What the routine computes for a hash of the given width and value. */
  function Result(targetZeros: nat, bits22: nat, bits: nat, v: nat): (r: int)
    requires GoodBits(bits22) && bits >= 32 && v < Pow2(bits)
    ensures FLOOR <= r <= CEILING
  {
    if v == 0 then CEILING
    else
      var z := ZeroCount(bits, v);
      NormalizedIffLeadingZeros(bits, v, z);
      Encode(targetZeros, z, Quotient(bits22, Normalized(bits, v, z)))
  }

  // ---------------------------------------------------------------- the routine

  method SkipZeros(hash: seq<u32>) returns (i: nat)
    ensures i <= |hash| && Value(hash[..i]) == 0
    ensures if i == |hash| then Value(hash) == 0 else ByteSwap(hash[i]) > 0
  {
    i := 0;
    while i < |hash| && hash[i] == 0
      invariant i <= |hash| && Value(hash[..i]) == 0
    {
      assert hash[..i + 1][..i] == hash[..i];
      i := i + 1;
    }
    assert hash[..|hash|] == hash;
  }

  /** Skips the zero words, then shifts the window right until 32 bits are left; `hbits` is 0 for the
      zero hash only. */
  method Normalize(hash: seq<u32>) returns (hashzeros: nat, hbits: nat)
    requires |hash| >= 1
    ensures Value(hash) < Pow2(32 * |hash|)
    ensures if Value(hash) == 0 then hbits == 0
            else
              && TWO31 <= hbits < TWO32 && hashzeros == ZeroCount(32 * |hash|, Value(hash))
              && hbits == Normalized(32 * |hash|, Value(hash), hashzeros)
  {
    ghost var bits, v := 32 * |hash|, Value(hash);
    ValueBound(hash);
    var i := SkipZeros(hash);
    if i == |hash| {
      return 0, 0;
    }
    WindowOfHash(hash, i);
    hbits := Window(hash, i);
    hashzeros := 32 * (i + 1);
    hashzeros, hbits := ShiftOut(hashzeros, hbits, bits, v);
  }

  method ShiftOut(z: nat, h: nat, ghost bits: nat, ghost v: nat) returns (hashzeros: nat, hbits: nat)
    requires 32 <= bits && v < Pow2(bits) && z <= bits && h == Normalized(bits, v, z) && h >= TWO31
    ensures v > 0 && TWO31 <= hbits < TWO32 && hashzeros == ZeroCount(bits, v)
    ensures hbits == Normalized(bits, v, hashzeros)
  {
    hashzeros, hbits := z, h;
    while hbits >= TWO32
      invariant hashzeros <= bits && hbits == Normalized(bits, v, hashzeros) && hbits >= TWO31
      decreases hbits
    {
      HashzerosPositive(bits, v, hashzeros);
      ShiftRight(bits, v, hashzeros);
      hbits := hbits / 2;
      hashzeros := hashzeros - 1;
    }
    ZerosAreCounted(bits, v, hashzeros);
  }

  method ComputeTarget(zeros10: u32, bits22: nat, hash: seq<u32>) returns (r: u32)
    requires GoodBits(bits22) && |hash| >= 1
    ensures Value(hash) < Pow2(32 * |hash|)
    ensures r == Result(zeros10, bits22, 32 * |hash|, Value(hash))
  {
    var hashzeros, hbits := Normalize(hash);
    if hbits == 0 {
      return CEILING;
    }
    r := PackQuotient(zeros10, hashzeros, Quotient(bits22, hbits));
  }

  /** The tail of the routine, in 32-bit arithmetic. */
  method PackQuotient(targetzeros: u32, hashzeros: nat, quotient: int) returns (r: u32)
    requires TWO31 <= quotient < 2 * TWO32
    ensures r == Encode(targetzeros, hashzeros, quotient)
  {
    if targetzeros < hashzeros {
      return CEILING;
    }
    var zeros, bits64 := targetzeros - hashzeros, quotient;
    if bits64 >= TWO32 {
      if zeros == 0 {
        return CEILING;
      }
      zeros := zeros - 1;
      bits64 := bits64 / 512;
    } else {
      bits64 := bits64 / 256;
    }
    if zeros >= 255 {
      return FLOOR;
    }
    var exponent := (TWO32 - 1 - zeros) * 0x100_0000 % TWO32;
    assert exponent == (255 - zeros) * 0x100_0000;
    r := (bits64 + exponent) % TWO32;
  }

  // ---------------------------------------------------------------- monotonicity

  lemma CountAntitone(bits: nat, u: nat, v: nat)
    requires 0 < u <= v < Pow2(bits)
    ensures ZeroCount(bits, u) >= ZeroCount(bits, v)
  {
    var y, z := ZeroCount(bits, u), ZeroCount(bits, v);
    if y < z { PowMonotone(bits - z, bits - 1 - y); }
  }

  /** More leading zeros, or the same number and a larger quotient, never pack into less.  One zero
      more can cost half the quotient. */
  lemma EncodeMonotone(targetZeros: nat, y: nat, p: int, z: nat, q: int)
    requires TWO31 <= p < 2 * TWO32 && TWO31 <= q < 2 * TWO32
    requires if y == z then p >= q else y > z && p >= q / 2
    ensures Encode(targetZeros, y, p) >= Encode(targetZeros, z, q)
  {
  }

  lemma EncodeQuotient(targetZeros: nat, bits22: nat, y: nat, d: int, z: nat, e: int)
    requires GoodBits(bits22) && TWO31 <= d < TWO32 && TWO31 <= e < TWO32
    requires if y == z then d <= e else y > z
    ensures Encode(targetZeros, y, Quotient(bits22, d)) >= Encode(targetZeros, z, Quotient(bits22, e))
  {
    if y == z {
      QuotientAntitone(bits22, d, e);
    } else {
      QuotientHalf(bits22, d, e);
    }
    EncodeMonotone(targetZeros, y, Quotient(bits22, d), z, Quotient(bits22, e));
  }

  lemma NormalizedMonotone(bits: nat, u: nat, v: nat, z: nat)
    requires bits >= 32 && u <= v
    ensures Normalized(bits, u, z) <= Normalized(bits, v, z)
  {
    ShlMonotone(u, v, z);
    ShrMonotone(Shl(u, z), Shl(v, z), bits - 32);
  }

  /** A larger hash never gets a larger result. */
  lemma ResultIsMonotone(targetZeros: nat, bits22: nat, bits: nat, u: nat, v: nat)
    requires GoodBits(bits22) && bits >= 32 && u <= v < Pow2(bits)
    ensures Result(targetZeros, bits22, bits, u) >= Result(targetZeros, bits22, bits, v)
  {
    if u > 0 {
      var y, z := ZeroCount(bits, u), ZeroCount(bits, v);
      CountAntitone(bits, u, v);
      NormalizedIffLeadingZeros(bits, u, y);
      NormalizedIffLeadingZeros(bits, v, z);
      var ubits, vbits := Normalized(bits, u, y), Normalized(bits, v, z);
      if y == z {
        NormalizedMonotone(bits, u, v, z);
      }
      EncodeQuotient(targetZeros, bits22, y, ubits, z, vbits);
    }
  }

  // ---------------------------------------------------------------- what the word means

  /** The hash's leading 32 bits are at most the target's: then the quotient has 33 bits. */
  predicate Halves(bits22: nat, hbits: int) {
    hbits <= bits22 * 0x400
  }

  /** The word's complemented exponent and its mantissa. */
  function Exponent(r: int): int {
    255 - r / 0x100_0000
  }

  function Mantissa(r: int): int {
    r % 0x100_0000
  }

  /** What r says of a target with targetZeros zeros before the mantissa bits22, and a hash with z zeros
      before the 32 bits hbits: the zeros that the target has more than the hash, one fewer if the
      quotient takes one, stand in the exponent, unless there are fewer than none or too many; and the
      mantissa is the quotient of the mantissas, cut off. */
  predicate Says(targetZeros: nat, bits22: nat, z: nat, hbits: int, r: int) {
    var s, lost := if Halves(bits22, hbits) then 0x200 else 0x100, if Halves(bits22, hbits) then z + 1 else z;
    if targetZeros < lost then r == 0xFFFF_FFFF
    else if targetZeros - lost >= 255 then r == 0x0080_0000
    else
      var m := Mantissa(r);
      && Exponent(r) == targetZeros - lost && 0x80_0000 <= m
      && m * hbits * s <= bits22 * 0x400_0000_0000 < (m + 1) * hbits * s
  }

  lemma HalvesIff(bits22: nat, hbits: int)
    requires GoodBits(bits22) && TWO31 <= hbits < TWO32
    ensures Halves(bits22, hbits) <==> Quotient(bits22, hbits) >= TWO32
  {
    var a, q := bits22 * 0x400_0000_0000, Quotient(bits22, hbits);
    DivBounds(a, hbits);
    if Halves(bits22, hbits) {
      assert TWO32 * hbits <= a;
      MulLess(TWO32, q + 1, hbits);
    } else {
      assert a < TWO32 * hbits;
      MulLess(q, TWO32, hbits);
    }
  }

  lemma Decoded(zeros: nat, m: int)
    requires zeros < 255 && 0x80_0000 <= m < 0x100_0000
    ensures Exponent(Pack(zeros, m)) == zeros && Mantissa(Pack(zeros, m)) == m
  {
  }

  /** Cutting the quotient off by s once more is dividing by s times the divisor. */
  lemma CutOff(a: nat, d: nat, s: nat, q: nat, m: nat)
    requires d > 0 && s > 0 && q == a / d && m == q / s
    ensures m * d * s <= a < (m + 1) * d * s
  {
    DivBounds(a, d);
    DivBounds(q, s);
    MulAtMost(m * s, q, d);
    MulAtMost(q + 1, (m + 1) * s, d);
    assert m * d * s == d * (m * s) && (m + 1) * d * s == d * ((m + 1) * s);
  }

  lemma EncodeSays(targetZeros: nat, bits22: nat, z: nat, hbits: int)
    requires GoodBits(bits22) && TWO31 <= hbits < TWO32
    ensures Says(targetZeros, bits22, z, hbits, Encode(targetZeros, z, Quotient(bits22, hbits)))
  {
    var q := Quotient(bits22, hbits);
    HalvesIff(bits22, hbits);
    var s, lost := if Halves(bits22, hbits) then 512 else 256, if Halves(bits22, hbits) then z + 1 else z;
    CutOff(bits22 * 0x400_0000_0000, hbits, s, q, q / s);
    if lost <= targetZeros < lost + 255 {
      Decoded(targetZeros - lost, q / s);
    }
  }

  /** What `compute_targetv1_invzeros` returns, for any hash but zero with z leading zeros whose next 32
      bits are hbits; for zero it is the ceiling. */
  lemma ResultSays(targetZeros: nat, bits22: nat, bits: nat, v: nat, z: nat, hbits: int)
    requires GoodBits(bits22) && bits >= 32 && 0 < v < Pow2(bits) && LeadingZeros(bits, v, z)
    requires hbits * Pow2(bits - 32) <= v * Pow2(z) < (hbits + 1) * Pow2(bits - 32)
    ensures TWO31 <= hbits < TWO32 && Says(targetZeros, bits22, z, hbits, Result(targetZeros, bits22, bits, v))
  {
    CountIsUnique(bits, v, z, ZeroCount(bits, v));
    NormalizedIffLeadingZeros(bits, v, z);
    NormalizedIs(bits, v, z, hbits);
    EncodeSays(targetZeros, bits22, z, hbits);
  }

  lemma ZeroIsCeiling(targetZeros: nat, bits22: nat, bits: nat)
    requires GoodBits(bits22) && bits >= 32
    ensures Result(targetZeros, bits22, bits, 0) == 0xFFFF_FFFF
  {
  }

  lemma {:induction false} ShlIsTimes(x: nat, n: nat)
    ensures Shl(x, n) == x * Pow2(n)
  {
    if n > 0 {
      ShlIsTimes(x, n - 1);
      assert 2 * (x * Pow2(n - 1)) == x * (2 * Pow2(n - 1));
    }
  }

  lemma {:induction false} ShrIsDiv(x: nat, n: nat, q: nat)
    requires q * Pow2(n) <= x < (q + 1) * Pow2(n)
    ensures Shr(x, n) == q
    decreases n
  {
    if n > 0 {
      var p := Pow2(n - 1);
      assert q * Pow2(n) == 2 * (q * p) && (q + 1) * Pow2(n) == 2 * ((q + 1) * p);
      ShrIsDiv(x / 2, n - 1, q);
    }
  }

  lemma NormalizedIs(bits: nat, v: nat, z: nat, hbits: int)
    requires bits >= 32 && hbits * Pow2(bits - 32) <= v * Pow2(z) < (hbits + 1) * Pow2(bits - 32)
    ensures hbits >= 0 && Normalized(bits, v, z) == hbits
  {
    if hbits < 0 { NegativeProduct(hbits + 1, Pow2(bits - 32)); }
    ShlIsTimes(v, z);
    ShrIsDiv(v * Pow2(z), bits - 32, hbits);
  }

  lemma NegativeProduct(a: int, b: nat)
    requires a <= 0
    ensures a * b <= 0
  {
  }
}
