/** Where the constants of FIPS 180-4 come from: the first binary digits of the square and cube roots
    of the first primes (sections 4.2 and 5.3). */
module RootConstants {
  import opened MachineWords
  import opened Sha1Rounds
  import opened Sha2Rounds

  // ---------------------------------------------------------------- the first eighty primes

  function Prime(t: nat): int {
    match t
    case 0 => 2 case 1 => 3 case 2 => 5 case 3 => 7 case 4 => 11 case 5 => 13 case 6 => 17 case 7 => 19
    case 8 => 23 case 9 => 29 case 10 => 31 case 11 => 37 case 12 => 41 case 13 => 43 case 14 => 47 case 15 => 53
    case 16 => 59 case 17 => 61 case 18 => 67 case 19 => 71 case 20 => 73 case 21 => 79 case 22 => 83 case 23 => 89
    case 24 => 97 case 25 => 101 case 26 => 103 case 27 => 107 case 28 => 109 case 29 => 113 case 30 => 127 case 31 => 131
    case 32 => 137 case 33 => 139 case 34 => 149 case 35 => 151 case 36 => 157 case 37 => 163 case 38 => 167 case 39 => 173
    case 40 => 179 case 41 => 181 case 42 => 191 case 43 => 193 case 44 => 197 case 45 => 199 case 46 => 211 case 47 => 223
    case 48 => 227 case 49 => 229 case 50 => 233 case 51 => 239 case 52 => 241 case 53 => 251 case 54 => 257 case 55 => 263
    case 56 => 269 case 57 => 271 case 58 => 277 case 59 => 281 case 60 => 283 case 61 => 293 case 62 => 307 case 63 => 311
    case 64 => 313 case 65 => 317 case 66 => 331 case 67 => 337 case 68 => 347 case 69 => 349 case 70 => 353 case 71 => 359
    case 72 => 367 case 73 => 373 case 74 => 379 case 75 => 383 case 76 => 389 case 77 => 397 case 78 => 401 case 79 => 409
    case _ => 0
  }

  ghost predicate IsPrime(n: int) {
    n >= 2 && forall d: nat :: 2 <= d < n ==> n % d != 0
  }

  /** One of the primes below 20 divides n. */
  predicate Divided(n: int) {
    n % 2 == 0 || n % 3 == 0 || n % 5 == 0 || n % 7 == 0 || n % 11 == 0 || n % 13 == 0 || n % 17 == 0 || n % 19 == 0
  }

  lemma SmallDivides(n: int, d: nat, q: nat)
    requires 2 <= d <= 20 && n == d * q
    ensures Divided(n)
  {
    if d % 2 == 0 {
      MultipleOf(n, d, q, 2, d / 2);
    } else if d % 3 == 0 {
      MultipleOf(n, d, q, 3, d / 3);
    } else if d % 5 == 0 {
      MultipleOf(n, d, q, 5, d / 5);
    } else {
      assert d == 7 || d == 11 || d == 13 || d == 17 || d == 19;
      MultipleOf(n, d, q, d, 1);
    }
  }

  lemma MultipleOf(n: int, d: nat, q: nat, p: nat, e: nat)
    requires n == d * q && d == p * e && p > 0
    ensures n % p == 0
  {
    var k := e * q;
    Regroup(p, e, q);
    TimesRemainder(p, k);
  }

  lemma Regroup(p: nat, e: nat, q: nat)
    ensures (p * e) * q == p * (e * q)
  {
  }

  lemma TimesRemainder(p: nat, k: nat)
    requires p > 0
    ensures (p * k) % p == 0
  {
    Remainder(p * k, k, 0, p);
  }

  lemma UndividedIsPrime(n: int)
    requires 20 < n < 441 && !Divided(n)
    ensures IsPrime(n)
  {
    forall d: nat | 2 <= d < n ensures n % d != 0 {
      if n % d == 0 {
        var q := n / d;
        assert n == d * q;
        if d <= 20 {
          SmallDivides(n, d, q);
        } else {
          OneFactorIsSmall(d, q);
          SmallDivides(n, q, d);
        }
      }
    }
  }

  lemma OneFactorIsSmall(d: nat, q: nat)
    requires d >= 21 && 0 < d * q < 441 && d < d * q
    ensures 2 <= q <= 20
  {
    if q >= 21 { LargeProduct(d, q); }
    assert q != 0 && q != 1;
  }

  lemma LargeProduct(d: nat, q: nat)
    requires d >= 21 && q >= 21
    ensures d * q >= 441
  {
    assert d * q == 21 * 21 + 21 * (q - 21) + (d - 21) * q;
  }

  lemma LargeOnes(t: nat)
    requires 8 <= t < 80
    ensures !Divided(Prime(t)) && 20 < Prime(t) < 441
  {
  }

  lemma SmallOnes(t: nat, d: nat)
    requires t < 8 && 2 <= d < Prime(t)
    ensures Prime(t) % d != 0
  {
  }

  lemma Increases(t: nat)
    requires t < 79
    ensures Prime(t) < Prime(t + 1) <= Prime(t) + 14
  {
  }

  lemma OddFromThree(t: nat)
    requires 0 < t < 80
    ensures Prime(t) % 2 == 1
  {
  }

  predicate Skips(p: int, q: int, gap: int) {
    p + gap < q ==> Divided(p + gap)
  }

  lemma NoneSkipped2(t: nat)
    requires t < 79
    ensures Skips(Prime(t), Prime(t + 1), 2)
  {
  }

  lemma NoneSkipped4(t: nat)
    requires t < 79
    ensures Skips(Prime(t), Prime(t + 1), 4)
  {
  }

  lemma NoneSkipped6(t: nat)
    requires t < 79
    ensures Skips(Prime(t), Prime(t + 1), 6)
  {
  }

  lemma NoneSkipped8(t: nat)
    requires t < 79
    ensures Skips(Prime(t), Prime(t + 1), 8)
  {
  }

  lemma NoneSkipped10(t: nat)
    requires t < 79
    ensures Skips(Prime(t), Prime(t + 1), 10)
  {
  }

  lemma NoneSkipped12(t: nat)
    requires t < 79
    ensures Skips(Prime(t), Prime(t + 1), 12)
  {
  }

  lemma BetweenIsDivided(p: int, q: int, n: int)
    requires p % 2 == 1 && p < n < q <= p + 14
    requires Skips(p, q, 2) && Skips(p, q, 4) && Skips(p, q, 6) && Skips(p, q, 8) && Skips(p, q, 10)
    requires Skips(p, q, 12)
    ensures Divided(n)
  {
    if n == p + 2 || n == p + 4 || n == p + 6 || n == p + 8 || n == p + 10 || n == p + 12 {
    } else {
      EvenGap(p, n);
    }
  }

  lemma EvenGap(p: int, n: int)
    requires p % 2 == 1 && p < n < p + 14
    requires n != p + 2 && n != p + 4 && n != p + 6 && n != p + 8 && n != p + 10 && n != p + 12
    ensures n % 2 == 0
  {
  }

  lemma NoneBetween(t: nat, n: int)
    requires t < 79 && Prime(t) < n < Prime(t + 1)
    ensures Divided(n)
  {
    if t > 0 {
      Increases(t);
      OddFromThree(t);
      NoneSkipped2(t);
      NoneSkipped4(t);
      NoneSkipped6(t);
      NoneSkipped8(t);
      NoneSkipped10(t);
      NoneSkipped12(t);
      BetweenIsDivided(Prime(t), Prime(t + 1), n);
    }
  }

  lemma BetweenIsOther(t: nat, n: int)
    requires t < 79 && Prime(t) < n < Prime(t + 1)
    ensures n >= 4 && n != 5 && n != 7 && n != 11 && n != 13 && n != 17 && n != 19
  {
  }

  /** These are the first primes, in order. */
  lemma FirstPrimes(t: nat)
    requires t < 80
    ensures IsPrime(Prime(t)) && Prime(0) == 2
    ensures t < 79 ==> Prime(t) < Prime(t + 1)
    ensures t < 79 ==> forall n: nat :: Prime(t) < n < Prime(t + 1) ==> !IsPrime(n)
  {
    if t < 8 {
      forall d: nat | 2 <= d < Prime(t) ensures Prime(t) % d != 0 { SmallOnes(t, d); }
    } else {
      LargeOnes(t);
      UndividedIsPrime(Prime(t));
    }
    if t < 79 {
      Increases(t);
      forall n: nat | Prime(t) < n < Prime(t + 1) ensures !IsPrime(n) {
        NoneBetween(t, n);
        BetweenIsOther(t, n);
        DividedIsComposite(n);
      }
    }
  }

  lemma DividedIsComposite(n: nat)
    requires Divided(n) && n >= 4 && n != 5 && n != 7 && n != 11 && n != 13 && n != 17 && n != 19
    ensures !IsPrime(n)
  {
    var p: nat := if n % 2 == 0 then 2 else if n % 3 == 0 then 3 else if n % 5 == 0 then 5
                  else if n % 7 == 0 then 7 else if n % 11 == 0 then 11 else if n % 13 == 0 then 13
                  else if n % 17 == 0 then 17 else 19;
    assert n % p == 0 && p < n;
  }

  // ---------------------------------------------------------------- roots

  /** The integer parts of the roots that are needed. */
  function SquarePart(n: int): int {
    if n < 4 then 1 else if n < 9 then 2 else if n < 16 then 3 else 4
  }

  function CubePart(n: int): int {
    if n < 8 then 1 else if n < 27 then 2 else if n < 64 then 3 else if n < 125 then 4
    else if n < 216 then 5 else if n < 343 then 6 else 7
  }

  /** k / one is the fraction of the square root of n, cut off; `one` is a power of two. */
  predicate SquareFraction(n: int, k: int, one: int) {
    var r := SquarePart(n) * one + k;
    0 <= k < one && r * r <= n * one * one < (r + 1) * (r + 1)
  }

  predicate CubeFraction(n: int, k: int, one: int) {
    var r := CubePart(n) * one + k;
    0 <= k < one && r * r * r <= n * one * one * one < (r + 1) * (r + 1) * (r + 1)
  }

  /** The round constants of SHA-256: 32 bits of the cube roots of the first 64 primes. */
  lemma RoundConstants256(t: nat)
    requires t < 64
    ensures CubeFraction(Prime(t), K256(t), TWO32)
  {
  }

  /** The round constants of SHA-512: 64 bits of the cube roots of the first 80 primes. */
  lemma RoundConstants512(t: nat)
    requires t < 80
    ensures CubeFraction(Prime(t), K512(t), TWO64)
  {
  }

  /** The initial hash values: the square roots of the first eight primes. */
  lemma InitialValues256()
    ensures var r := SHA256_INITIAL;
            && SquareFraction(2, r.a, TWO32) && SquareFraction(3, r.b, TWO32)
            && SquareFraction(5, r.c, TWO32) && SquareFraction(7, r.d, TWO32)
            && SquareFraction(11, r.e, TWO32) && SquareFraction(13, r.f, TWO32)
            && SquareFraction(17, r.g, TWO32) && SquareFraction(19, r.h, TWO32)
  {
  }

  lemma InitialValues512()
    ensures var r := SHA512_INITIAL;
            && SquareFraction(2, r.a, TWO64) && SquareFraction(3, r.b, TWO64)
            && SquareFraction(5, r.c, TWO64) && SquareFraction(7, r.d, TWO64)
            && SquareFraction(11, r.e, TWO64) && SquareFraction(13, r.f, TWO64)
            && SquareFraction(17, r.g, TWO64) && SquareFraction(19, r.h, TWO64)
  {
  }

  /** The constants of SHA-1: 30 bits after the binary point of the square roots of 2, 3, 5 and 10,
      with the bits before it. */
  lemma RoundConstants1(t: nat)
    requires t < 80
    ensures var n := if t < 20 then 2 else if t < 40 then 3 else if t < 60 then 5 else 10;
            K(t) * K(t) <= n * 0x1000_0000_0000_0000 < (K(t) + 1) * (K(t) + 1)
  {
  }

  lemma FourBytes(x: u32)
    ensures LittleEndian(x, 4) == [x % 256, x / 256 % 256, x / 256 / 256 % 256, x / 256 / 256 / 256 % 256]
  {
    assert LittleEndian(x / 256 / 256, 2) == [x / 256 / 256 % 256] + LittleEndian(x / 256 / 256 / 256, 1);
  }

  /** The initial hash value of SHA-1 has the hexadecimal digits in memory upwards, downwards, and from
      both ends. */
  lemma InitialValue1()
    ensures LittleEndian(SHA1_INITIAL.a, 4) == [0x01, 0x23, 0x45, 0x67]
    ensures LittleEndian(SHA1_INITIAL.b, 4) == [0x89, 0xab, 0xcd, 0xef]
    ensures LittleEndian(SHA1_INITIAL.c, 4) == [0xfe, 0xdc, 0xba, 0x98]
    ensures LittleEndian(SHA1_INITIAL.d, 4) == [0x76, 0x54, 0x32, 0x10]
    ensures LittleEndian(SHA1_INITIAL.e, 4) == [0xf0, 0xe1, 0xd2, 0xc3]
  {
    FourBytes(SHA1_INITIAL.a);
    FourBytes(SHA1_INITIAL.b);
    FourBytes(SHA1_INITIAL.c);
    FourBytes(SHA1_INITIAL.d);
    FourBytes(SHA1_INITIAL.e);
  }
}
