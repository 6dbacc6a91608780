/** Reduction of a 128-bit polynomial over GF(2) modulo x^64 + x^4 + x^3 + x + 1.  A register is the
    sequence of its bits, lowest first; bit i is the coefficient of x^i, so addition is XOR. */
module Gf2Reduction {
  type Register = s: seq<bool> | |s| == 128 witness seq(128, _ => false)
  type Word = s: seq<bool> | |s| == 64 witness seq(64, _ => false)

  /** The coefficient of x^i, 0 outside the polynomial. */
  function Coef(p: seq<bool>, i: int): bool {
    0 <= i < |p| && p[i]
  }

  /** The sum of the products a_i * b_(k-i) over i below n: the coefficient of x^k in a * b once n
      exceeds k. */
  function Convolve(a: seq<bool>, b: seq<bool>, k: nat, n: nat): bool {
    if n == 0 then false
    else Convolve(a, b, k, n - 1) != (Coef(a, n - 1) && Coef(b, k - (n - 1)))
  }

  function ProductCoef(a: seq<bool>, b: seq<bool>, k: nat): bool {
    Convolve(a, b, k, k + 1)
  }

  /** x^4 + x^3 + x + 1, the constant C of the code. */
  function C(): Word {
    seq(64, i => i == 0 || i == 1 || i == 3 || i == 4)
  }

  /** x^64 + x^4 + x^3 + x + 1. */
  function Modulus(): seq<bool> {
    seq(65, i => i == 0 || i == 1 || i == 3 || i == 4 || i == 64)
  }

  // ---------------------------------------------------------------- the code

  function Xor(a: Register, b: Register): Register {
    seq(128, i requires 0 <= i < 128 => a[i] != b[i])
  }

  /** `_mm_clmulepi64_si128`: the carry-less product of two 64-bit halves. */
  function ClMul(a: Word, b: Word): Register {
    seq(128, k requires 0 <= k => ProductCoef(a, b, k))
  }

  /** `_mm_srli_si128(a, 8)`. */
  function ShiftRight8Bytes(a: Register): Register {
    seq(128, i requires 0 <= i => Coef(a, i + 64))
  }

  const TABLE := [0, 27, 54, 45, 108, 119, 90, 65, 216, 195, 238, 245, 180, 175, 130, 153]

  const POWERS := [1, 2, 4, 8, 16, 32, 64, 128]

  function TableBit(v: nat, j: nat): bool
    requires v < 16 && j < 8
  {
    (TABLE[v] / POWERS[j]) % 2 == 1
  }

  function Nibble(b0: bool, b1: bool, b2: bool, b3: bool): (v: nat)
    ensures v < 16
  {
    (if b0 then 1 else 0) + (if b1 then 2 else 0) + (if b2 then 4 else 0) + (if b3 then 8 else 0)
  }

  /** `_mm_shuffle_epi8` with the table: each byte becomes 0 if its top bit is set and otherwise the
      table entry its low four bits name. */
  function ShuffleTable(idx: Register): Register {
    seq(128, i requires 0 <= i < 128 =>
      var l := i - i % 8;
      !idx[l + 7] && TableBit(Nibble(idx[l], idx[l + 1], idx[l + 2], idx[l + 3]), i % 8))
  }

  function PrecompReductionSi128(a: Register): Register {
    var q2 := ClMul(a[64..], C());
    var q3 := ShuffleTable(ShiftRight8Bytes(q2));
    Xor(q3, Xor(q2, a))
  }

  /** The low half; the high half is garbage. */
  function PrecompReduction64(a: Register): Word {
    PrecompReductionSi128(a)[..64]
  }

  // ---------------------------------------------------------------- sparse products

  /** Multiplying by C adds four shifted copies. */
  function TimesC(a: seq<bool>, k: int): bool {
    (Coef(a, k) != Coef(a, k - 1)) != (Coef(a, k - 3) != Coef(a, k - 4))
  }

  /** The copies that the first n terms of the convolution have contributed. */
  function Copy(a: seq<bool>, k: int, n: nat): bool {
    k < n && Coef(a, k)
  }

  lemma {:induction false} ConvolveC(a: seq<bool>, k: nat, n: nat)
    ensures Convolve(a, C(), k, n)
         == ((Copy(a, k, n) != Copy(a, k - 1, n)) != (Copy(a, k - 3, n) != Copy(a, k - 4, n)))
  {
    if n > 0 { ConvolveC(a, k, n - 1); }
  }

  lemma {:induction false} ConvolveModulus(a: seq<bool>, k: nat, n: nat)
    ensures Convolve(a, Modulus(), k, n)
         == (((Copy(a, k, n) != Copy(a, k - 1, n)) != (Copy(a, k - 3, n) != Copy(a, k - 4, n)))
             != Copy(a, k - 64, n))
  {
    if n > 0 { ConvolveModulus(a, k, n - 1); }
  }

  lemma ProductWithC(a: seq<bool>, k: nat)
    ensures ProductCoef(a, C(), k) == TimesC(a, k)
  {
    ConvolveC(a, k, k + 1);
  }

  lemma ProductWithModulus(a: seq<bool>, k: nat)
    ensures ProductCoef(a, Modulus(), k) == (TimesC(a, k) != Coef(a, k - 64))
  {
    ConvolveModulus(a, k, k + 1);
  }

  // ---------------------------------------------------------------- the shuffle table

  /** Every table entry is the carry-less product of its index and 27. */
  lemma TableIsTimesC(b0: bool, b1: bool, b2: bool, b3: bool, j: nat)
    requires j < 8
    ensures TableBit(Nibble(b0, b1, b2, b3), j) == ProductCoef([b0, b1, b2, b3], C(), j)
  {
    ProductWithC([b0, b1, b2, b3], j);
    TableEntry(b0, b1, b2, b3, j);
  }

  lemma TableEntry(b0: bool, b1: bool, b2: bool, b3: bool, j: nat)
    requires j < 8
    ensures TableBit(Nibble(b0, b1, b2, b3), j) == TimesC([b0, b1, b2, b3], j)
  {
    if j < 2 { TableEntryLowest(b0, b1, b2, b3, j); }
    else if j < 4 { TableEntryLow(b0, b1, b2, b3, j); }
    else { TableEntryHigh(b0, b1, b2, b3, j); }
  }

  lemma TableEntryLowest(b0: bool, b1: bool, b2: bool, b3: bool, j: nat)
    requires j < 2
    ensures TableBit(Nibble(b0, b1, b2, b3), j) == TimesC([b0, b1, b2, b3], j)
  {
    var p := [b0, b1, b2, b3];
    assert Coef(p, 0) == b0 && Coef(p, 1) == b1;
    if j == 0 {} else {}
  }

  lemma TableEntryLow(b0: bool, b1: bool, b2: bool, b3: bool, j: nat)
    requires 2 <= j < 4
    ensures TableBit(Nibble(b0, b1, b2, b3), j) == TimesC([b0, b1, b2, b3], j)
  {
    var p := [b0, b1, b2, b3];
    assert Coef(p, 0) == b0 && Coef(p, 1) == b1 && Coef(p, 2) == b2 && Coef(p, 3) == b3;
    if j == 2 {} else {}
  }

  lemma TableEntryHigh(b0: bool, b1: bool, b2: bool, b3: bool, j: nat)
    requires 4 <= j < 8
    ensures TableBit(Nibble(b0, b1, b2, b3), j) == TimesC([b0, b1, b2, b3], j)
  {
    var p := [b0, b1, b2, b3];
    assert Coef(p, 0) == b0 && Coef(p, 1) == b1 && Coef(p, 2) == b2 && Coef(p, 3) == b3;
    if j < 6 { if j == 4 {} else {} } else { if j == 6 {} else {} }
  }

  // ---------------------------------------------------------------- the closed form

  function High(a: Register): Word {
    a[64..]
  }

  /** The four coefficients by which the high half times C sticks out past x^63. */
  function Overflow(a: Register): seq<bool> {
    [TimesC(High(a), 64), TimesC(High(a), 65), TimesC(High(a), 66), TimesC(High(a), 67)]
  }

  /** The shuffle's index register: the overflow in its low four bits, all other bits 0. */
  function Index(a: Register): Register {
    ShiftRight8Bytes(ClMul(High(a), C()))
  }

  lemma IndexBits(a: Register, k: nat)
    requires k < 128
    ensures Index(a)[k] == (k < 4 && Overflow(a)[k])
  {
    if k < 64 { ProductWithC(High(a), k + 64); }
  }

  lemma ShuffleLowLane(a: Register, i: nat)
    requires i < 8
    ensures ShuffleTable(Index(a))[i] == TimesC(Overflow(a), i)
  {
    var t := Overflow(a);
    IndexBits(a, 0);
    IndexBits(a, 1);
    IndexBits(a, 2);
    IndexBits(a, 3);
    IndexBits(a, 7);
    assert t == [t[0], t[1], t[2], t[3]];
    TableEntry(t[0], t[1], t[2], t[3], i);
    assert i - i % 8 == 0;
  }

  lemma ShuffleOtherLane(a: Register, i: nat)
    requires 8 <= i < 64
    ensures !ShuffleTable(Index(a))[i]
  {
    var l := i - i % 8;
    IndexBits(a, l);
    IndexBits(a, l + 1);
    IndexBits(a, l + 2);
    IndexBits(a, l + 3);
    assert Nibble(false, false, false, false) == 0;
    assert !TableBit(0, i % 8);
  }

  lemma ReducedBit(a: Register, i: nat)
    requires i < 64
    ensures PrecompReduction64(a)[i]
         == ((a[i] != TimesC(High(a), i)) != TimesC(Overflow(a), i))
  {
    if i < 8 { ShuffleLowLane(a, i); } else { ShuffleOtherLane(a, i); }
    ProductWithC(High(a), i);
  }

  // ---------------------------------------------------------------- remainder and uniqueness

  /** r is the remainder of a for quotient q: a = q * (x^64 + x^4 + x^3 + x + 1) + r. */
  ghost predicate Divides(a: Register, q: Word, r: Word) {
    forall k: nat :: Coef(a, k) == (ProductCoef(q, Modulus(), k) != Coef(r, k))
  }

  /** The high half plus the overflow. */
  function Quotient(a: Register): Word {
    seq(64, i requires 0 <= i => Coef(High(a), i) != Coef(Overflow(a), i))
  }

  lemma QuotientTimesC(a: Register, k: int)
    ensures TimesC(Quotient(a), k) == (TimesC(High(a), k) != TimesC(Overflow(a), k))
  {
    var q := Quotient(a);
    assert forall i {:trigger Coef(q, i)} :: Coef(q, i) == (Coef(High(a), i) != Coef(Overflow(a), i));
  }

  lemma ReductionIsRemainder(a: Register)
    ensures Divides(a, Quotient(a), PrecompReduction64(a))
  {
    var q := Quotient(a);
    forall k: nat
      ensures Coef(a, k) == (ProductCoef(q, Modulus(), k) != Coef(PrecompReduction64(a), k))
    {
      ProductWithModulus(q, k);
      QuotientTimesC(a, k);
      if k < 64 { ReducedBit(a, k); }
    }
  }

  /** A word d with d * modulus of degree below 64 is 0: each coefficient is fixed by higher ones. */
  lemma NoSmallMultiple(d: Word)
    requires forall k | 64 <= k < 128 :: !ProductCoef(d, Modulus(), k)
    ensures forall i :: 0 <= i < 64 ==> !d[i]
  {
    forall i | 4 <= i < 64 ensures !d[i] {
      ProductWithModulus(d, i + 64);
    }
    forall i | 0 <= i < 4 ensures !d[i] {
      ProductWithModulus(d, i + 64);
    }
  }

  function Sum(p: Word, q: Word): Word {
    seq(64, i requires 0 <= i < 64 => p[i] != q[i])
  }

  lemma SumProduct(p: Word, q: Word, k: nat)
    ensures ProductCoef(Sum(p, q), Modulus(), k)
         == (ProductCoef(p, Modulus(), k) != ProductCoef(q, Modulus(), k))
  {
    ProductWithModulus(p, k);
    ProductWithModulus(q, k);
    ProductWithModulus(Sum(p, q), k);
    assert forall i {:trigger Coef(Sum(p, q), i)} :: Coef(Sum(p, q), i) == (Coef(p, i) != Coef(q, i));
  }

  /** No other pair of 64-bit quotient and remainder fits, so the function is the remainder. */
  lemma RemainderIsUnique(a: Register, q: Word, r: Word)
    requires Divides(a, q, r)
    ensures q == Quotient(a) && r == PrecompReduction64(a)
  {
    ReductionIsRemainder(a);
    var p, d := Quotient(a), Sum(q, Quotient(a));
    forall k | 64 <= k < 128 ensures !ProductCoef(d, Modulus(), k) {
      SumProduct(q, p, k);
      assert Coef(a, k) == (ProductCoef(q, Modulus(), k) != Coef(r, k));
    }
    NoSmallMultiple(d);
    forall i | 0 <= i < 64 ensures q[i] == p[i] { assert !d[i]; }
    assert q == p;
    forall i | 0 <= i < 64 ensures r[i] == PrecompReduction64(a)[i] {
      assert Coef(a, i) == (ProductCoef(q, Modulus(), i) != Coef(r, i));
      assert Coef(a, i) == (ProductCoef(q, Modulus(), i) != Coef(PrecompReduction64(a), i));
    }
  }

  /** Hence reduction is linear. */
  lemma ReductionIsLinear(a: Register, b: Register)
    ensures PrecompReduction64(Xor(a, b)) == Sum(PrecompReduction64(a), PrecompReduction64(b))
  {
    var c := Xor(a, b);
    var q, r := Sum(Quotient(a), Quotient(b)), Sum(PrecompReduction64(a), PrecompReduction64(b));
    ReductionIsRemainder(a);
    ReductionIsRemainder(b);
    forall k: nat ensures Coef(c, k) == (ProductCoef(q, Modulus(), k) != Coef(r, k)) {
      SumProduct(Quotient(a), Quotient(b), k);
      assert Coef(c, k) == (Coef(a, k) != Coef(b, k));
    }
    RemainderIsUnique(c, q, r);
  }
}
