/** The rounds of SHA-256, SHA-512 and SHA-1 as the code's macros compute them, and the unrolled
    transforms, in which the variables keep their names and the registers rotate through them. */
module Sha2Rounds {
  import opened MachineWords
  import opened Sha2Schedule

  function W32(x: int): bv32 {
    (x % TWO32) as bv32
  }

  function W64(x: int): bv64 {
    (x % TWO64) as bv64
  }

  // ---------------------------------------------------------------- logical functions

  function Choose32(x: bv32, y: bv32, z: bv32): bv32 {
    (x & y) ^ (!x & z)
  }

  function Majority32(x: bv32, y: bv32, z: bv32): bv32 {
    (x & y) ^ (x & z) ^ (y & z)
  }

  function Choose64(x: bv64, y: bv64, z: bv64): bv64 {
    (x & y) ^ (!x & z)
  }

  function Majority64(x: bv64, y: bv64, z: bv64): bv64 {
    (x & y) ^ (x & z) ^ (y & z)
  }

  function BigSigma0For256(x: bv32): bv32 {
    ((x >> 2) | (x << 30)) ^ ((x >> 13) | (x << 19)) ^ ((x >> 22) | (x << 10))
  }

  function BigSigma1For256(x: bv32): bv32 {
    ((x >> 6) | (x << 26)) ^ ((x >> 11) | (x << 21)) ^ ((x >> 25) | (x << 7))
  }

  function SmallSigma0For256(x: bv32): bv32 {
    ((x >> 7) | (x << 25)) ^ ((x >> 18) | (x << 14)) ^ (x >> 3)
  }

  function SmallSigma1For256(x: bv32): bv32 {
    ((x >> 17) | (x << 15)) ^ ((x >> 19) | (x << 13)) ^ (x >> 10)
  }

  /** The macros are the rotations of section 4.1.2 of FIPS 180-4. */
  lemma SigmasOfFips256(x: bv32)
    ensures BigSigma0For256(x) == x.RotateRight(2) ^ x.RotateRight(13) ^ x.RotateRight(22)
    ensures BigSigma1For256(x) == x.RotateRight(6) ^ x.RotateRight(11) ^ x.RotateRight(25)
    ensures SmallSigma0For256(x) == x.RotateRight(7) ^ x.RotateRight(18) ^ (x >> 3)
    ensures SmallSigma1For256(x) == x.RotateRight(17) ^ x.RotateRight(19) ^ (x >> 10)
  {
  }

  function BigSigma0For512(x: bv64): bv64 {
    ((x >> 28) | (x << 36)) ^ ((x >> 34) | (x << 30)) ^ ((x >> 39) | (x << 25))
  }

  function BigSigma1For512(x: bv64): bv64 {
    ((x >> 14) | (x << 50)) ^ ((x >> 18) | (x << 46)) ^ ((x >> 41) | (x << 23))
  }

  function SmallSigma0For512(x: bv64): bv64 {
    ((x >> 1) | (x << 63)) ^ ((x >> 8) | (x << 56)) ^ (x >> 7)
  }

  function SmallSigma1For512(x: bv64): bv64 {
    ((x >> 19) | (x << 45)) ^ ((x >> 61) | (x << 3)) ^ (x >> 6)
  }

  /** The macros are the rotations of section 4.1.3 of FIPS 180-4. */
  lemma SigmasOfFips512(x: bv64)
    ensures BigSigma0For512(x) == x.RotateRight(28) ^ x.RotateRight(34) ^ x.RotateRight(39)
    ensures BigSigma1For512(x) == x.RotateRight(14) ^ x.RotateRight(18) ^ x.RotateRight(41)
    ensures SmallSigma0For512(x) == x.RotateRight(1) ^ x.RotateRight(8) ^ (x >> 7)
    ensures SmallSigma1For512(x) == x.RotateRight(19) ^ x.RotateRight(61) ^ (x >> 6)
  {
  }

  // ---------------------------------------------------------------- SHA-256 and SHA-512

  /** The eight working variables. */
  datatype Regs = Regs(a: int, b: int, c: int, d: int, e: int, f: int, g: int, h: int)

  /** Word size, the six logical functions and the round constants. */
  datatype Suite = Suite(modulus: nat, bigSigma0: int -> int, bigSigma1: int -> int,
                         sigma0: int -> int, sigma1: int -> int, ch: (int, int, int) -> int,
                         maj: (int, int, int) -> int, k: nat -> int)

  function T1(s: Suite, r: Regs, t: nat, w: int): int
    requires s.modulus > 0
  {
    (r.h + s.bigSigma1(r.e) + s.ch(r.e, r.f, r.g) + s.k(t) + w) % s.modulus
  }

  function T2(s: Suite, r: Regs): int
    requires s.modulus > 0
  {
    (s.bigSigma0(r.a) + s.maj(r.a, r.b, r.c)) % s.modulus
  }

  function Round(s: Suite, r: Regs, t: nat, w: int): Regs
    requires s.modulus > 0
  {
    var (t1, t2) := (T1(s, r, t, w), T2(s, r));
    Regs((t1 + t2) % s.modulus, r.a, r.b, r.c, (r.d + t1) % s.modulus, r.e, r.f, r.g)
  }

  function Next(s: Suite, w16: int, w15: int, w7: int, w2: int): int
    requires s.modulus > 0
  {
    (w16 + s.sigma1(w2) + w7 + s.sigma0(w15)) % s.modulus
  }

  function AddRegs(s: Suite, x: Regs, y: Regs): Regs
    requires s.modulus > 0
  {
    var m := s.modulus;
    Regs((x.a + y.a) % m, (x.b + y.b) % m, (x.c + y.c) % m, (x.d + y.d) % m,
         (x.e + y.e) % m, (x.f + y.f) % m, (x.g + y.g) % m, (x.h + y.h) % m)
  }

  /** The words 16, 15, 7 and 2 back are 0, 1, 9 and 14 places into the last sixteen. */
  function SuiteAlg(s: Suite, rounds: nat): (alg: Alg<Regs>)
    requires s.modulus > 0 && rounds >= 16
    ensures WellFormed(alg)
  {
    Alg(1, 9, 14, (w16, w15, w7, w2) => Next(s, w16, w15, w7, w2), (r, t, w) => Round(s, r, t, w),
        (x, y) => AddRegs(s, x, y), rounds)
  }

  function K256(t: nat): int {
    match t
    case 0 => 0x428a2f98 case 1 => 0x71374491 case 2 => 0xb5c0fbcf case 3 => 0xe9b5dba5 case 4 => 0x3956c25b
    case 5 => 0x59f111f1 case 6 => 0x923f82a4 case 7 => 0xab1c5ed5 case 8 => 0xd807aa98 case 9 => 0x12835b01
    case 10 => 0x243185be case 11 => 0x550c7dc3 case 12 => 0x72be5d74 case 13 => 0x80deb1fe case 14 => 0x9bdc06a7
    case 15 => 0xc19bf174 case 16 => 0xe49b69c1 case 17 => 0xefbe4786 case 18 => 0x0fc19dc6 case 19 => 0x240ca1cc
    case 20 => 0x2de92c6f case 21 => 0x4a7484aa case 22 => 0x5cb0a9dc case 23 => 0x76f988da case 24 => 0x983e5152
    case 25 => 0xa831c66d case 26 => 0xb00327c8 case 27 => 0xbf597fc7 case 28 => 0xc6e00bf3 case 29 => 0xd5a79147
    case 30 => 0x06ca6351 case 31 => 0x14292967 case 32 => 0x27b70a85 case 33 => 0x2e1b2138 case 34 => 0x4d2c6dfc
    case 35 => 0x53380d13 case 36 => 0x650a7354 case 37 => 0x766a0abb case 38 => 0x81c2c92e case 39 => 0x92722c85
    case 40 => 0xa2bfe8a1 case 41 => 0xa81a664b case 42 => 0xc24b8b70 case 43 => 0xc76c51a3 case 44 => 0xd192e819
    case 45 => 0xd6990624 case 46 => 0xf40e3585 case 47 => 0x106aa070 case 48 => 0x19a4c116 case 49 => 0x1e376c08
    case 50 => 0x2748774c case 51 => 0x34b0bcb5 case 52 => 0x391c0cb3 case 53 => 0x4ed8aa4a case 54 => 0x5b9cca4f
    case 55 => 0x682e6ff3 case 56 => 0x748f82ee case 57 => 0x78a5636f case 58 => 0x84c87814 case 59 => 0x8cc70208
    case 60 => 0x90befffa case 61 => 0xa4506ceb case 62 => 0xbef9a3f7 case 63 => 0xc67178f2
    case _ => 0
  }

  function K512(t: nat): int {
    match t
    case 0 => 0x428a2f98d728ae22 case 1 => 0x7137449123ef65cd case 2 => 0xb5c0fbcfec4d3b2f
    case 3 => 0xe9b5dba58189dbbc case 4 => 0x3956c25bf348b538 case 5 => 0x59f111f1b605d019
    case 6 => 0x923f82a4af194f9b case 7 => 0xab1c5ed5da6d8118 case 8 => 0xd807aa98a3030242
    case 9 => 0x12835b0145706fbe case 10 => 0x243185be4ee4b28c case 11 => 0x550c7dc3d5ffb4e2
    case 12 => 0x72be5d74f27b896f case 13 => 0x80deb1fe3b1696b1 case 14 => 0x9bdc06a725c71235
    case 15 => 0xc19bf174cf692694 case 16 => 0xe49b69c19ef14ad2 case 17 => 0xefbe4786384f25e3
    case 18 => 0x0fc19dc68b8cd5b5 case 19 => 0x240ca1cc77ac9c65 case 20 => 0x2de92c6f592b0275
    case 21 => 0x4a7484aa6ea6e483 case 22 => 0x5cb0a9dcbd41fbd4 case 23 => 0x76f988da831153b5
    case 24 => 0x983e5152ee66dfab case 25 => 0xa831c66d2db43210 case 26 => 0xb00327c898fb213f
    case 27 => 0xbf597fc7beef0ee4 case 28 => 0xc6e00bf33da88fc2 case 29 => 0xd5a79147930aa725
    case 30 => 0x06ca6351e003826f case 31 => 0x142929670a0e6e70 case 32 => 0x27b70a8546d22ffc
    case 33 => 0x2e1b21385c26c926 case 34 => 0x4d2c6dfc5ac42aed case 35 => 0x53380d139d95b3df
    case 36 => 0x650a73548baf63de case 37 => 0x766a0abb3c77b2a8 case 38 => 0x81c2c92e47edaee6
    case 39 => 0x92722c851482353b case 40 => 0xa2bfe8a14cf10364 case 41 => 0xa81a664bbc423001
    case 42 => 0xc24b8b70d0f89791 case 43 => 0xc76c51a30654be30 case 44 => 0xd192e819d6ef5218
    case 45 => 0xd69906245565a910 case 46 => 0xf40e35855771202a case 47 => 0x106aa07032bbd1b8
    case 48 => 0x19a4c116b8d2d0c8 case 49 => 0x1e376c085141ab53 case 50 => 0x2748774cdf8eeb99
    case 51 => 0x34b0bcb5e19b48a8 case 52 => 0x391c0cb3c5c95a63 case 53 => 0x4ed8aa4ae3418acb
    case 54 => 0x5b9cca4f7763e373 case 55 => 0x682e6ff3d6b2b8a3 case 56 => 0x748f82ee5defb2fc
    case 57 => 0x78a5636f43172f60 case 58 => 0x84c87814a1f0ab72 case 59 => 0x8cc702081a6439ec
    case 60 => 0x90befffa23631e28 case 61 => 0xa4506cebde82bde9 case 62 => 0xbef9a3f7b2c67915
    case 63 => 0xc67178f2e372532b case 64 => 0xca273eceea26619c case 65 => 0xd186b8c721c0c207
    case 66 => 0xeada7dd6cde0eb1e case 67 => 0xf57d4f7fee6ed178 case 68 => 0x06f067aa72176fba
    case 69 => 0x0a637dc5a2c898a6 case 70 => 0x113f9804bef90dae case 71 => 0x1b710b35131c471b
    case 72 => 0x28db77f523047d84 case 73 => 0x32caab7b40c72493 case 74 => 0x3c9ebe0a15c9bebc
    case 75 => 0x431d67c49c100d4c case 76 => 0x4cc5d4becb3e42b6 case 77 => 0x597f299cfc657e2a
    case 78 => 0x5fcb6fab3ad6faec case 79 => 0x6c44198c4a475817
    case _ => 0
  }

  const SHA256_INITIAL := Regs(0x6a09e667, 0xbb67ae85, 0x3c6ef372, 0xa54ff53a,
    0x510e527f, 0x9b05688c, 0x1f83d9ab, 0x5be0cd19)

  const SHA512_INITIAL := Regs(0x6a09e667f3bcc908, 0xbb67ae8584caa73b, 0x3c6ef372fe94f82b,
    0xa54ff53a5f1d36f1, 0x510e527fade682d1, 0x9b05688c2b3e6c1f,
    0x1f83d9abfb41bd6b, 0x5be0cd19137e2179)

  function Sha256Suite(): Suite {
    Suite(TWO32, x => BigSigma0For256(W32(x)) as int, x => BigSigma1For256(W32(x)) as int,
          x => SmallSigma0For256(W32(x)) as int, x => SmallSigma1For256(W32(x)) as int,
          (x, y, z) => Choose32(W32(x), W32(y), W32(z)) as int,
          (x, y, z) => Majority32(W32(x), W32(y), W32(z)) as int,
          (t: nat) => K256(t))
  }

  function Sha512Suite(): Suite {
    Suite(TWO64, x => BigSigma0For512(W64(x)) as int, x => BigSigma1For512(W64(x)) as int,
          x => SmallSigma0For512(W64(x)) as int, x => SmallSigma1For512(W64(x)) as int,
          (x, y, z) => Choose64(W64(x), W64(y), W64(z)) as int,
          (x, y, z) => Majority64(W64(x), W64(y), W64(z)) as int,
          (t: nat) => K512(t))
  }

  // ---------------------------------------------------------------- unrolled rounds

  /** ROUND256 and ROUND512: two of the eight variables change, the names shift with each use. */
  function InPlace(s: Suite, a: int, b: int, c: int, d: int, e: int, f: int, g: int, h: int,
                   t: nat, w: int): (int, int)
    requires s.modulus > 0
  {
    var t1 := (h + s.bigSigma1(e) + s.ch(e, f, g) + s.k(t) + w) % s.modulus;
    ((d + t1) % s.modulus, (t1 + (s.bigSigma0(a) + s.maj(a, b, c))) % s.modulus)
  }

  lemma ModOfSum(x: int, y: int, m: nat)
    requires m > 0
    ensures (x + y % m) % m == (x + y) % m
  {
    var q, p := y / m, (x + y % m) / m;
    assert y == q * m + y % m;
    assert x + y == (p + q) * m + (x + y % m) % m;
    Remainder(x + y, p + q, (x + y % m) % m, m);
  }

  lemma Remainder(x: int, q: int, r: int, m: nat)
    requires m > 0 && x == q * m + r && 0 <= r < m
    ensures x % m == r
  {
    var k := x / m - q;
    assert k * m == r - x % m;
  }

  /** One use of the macro is one round, with the variables renamed. */
  lemma InPlaceIsRound(s: Suite, r: Regs, t: nat, w: int)
    requires s.modulus > 0
    ensures var (d, h) := InPlace(s, r.a, r.b, r.c, r.d, r.e, r.f, r.g, r.h, t, w);
            Round(s, r, t, w) == Regs(h, r.a, r.b, r.c, d, r.e, r.f, r.g)
  {
    var t1, x := T1(s, r, t, w), s.bigSigma0(r.a) + s.maj(r.a, r.b, r.c);
    ModOfSum(t1, x, s.modulus);
    MacroValue(s, r, t, w, t1, x);
    RoundValue(s, r, t, w, t1, x);
  }

  lemma MacroValue(s: Suite, r: Regs, t: nat, w: int, t1: int, x: int)
    requires s.modulus > 0 && t1 == T1(s, r, t, w) && x == s.bigSigma0(r.a) + s.maj(r.a, r.b, r.c)
    ensures InPlace(s, r.a, r.b, r.c, r.d, r.e, r.f, r.g, r.h, t, w)
         == ((r.d + t1) % s.modulus, (t1 + x) % s.modulus)
  {
  }

  lemma RoundValue(s: Suite, r: Regs, t: nat, w: int, t1: int, x: int)
    requires s.modulus > 0 && t1 == T1(s, r, t, w) && x == s.bigSigma0(r.a) + s.maj(r.a, r.b, r.c)
    ensures Round(s, r, t, w)
         == Regs((t1 + x % s.modulus) % s.modulus, r.a, r.b, r.c, (r.d + t1) % s.modulus, r.e, r.f, r.g)
  {
  }

  /** One use of the macro with the variables in any roles; the two results replace the fourth and
      the last of them. */
  method UseMacro(s: Suite, r: Regs, t: nat, w: int) returns (d: int, h: int)
    requires s.modulus > 0
    ensures Round(s, r, t, w) == Regs(h, r.a, r.b, r.c, d, r.e, r.f, r.g)
  {
    InPlaceIsRound(s, r, t, w);
    var p := InPlace(s, r.a, r.b, r.c, r.d, r.e, r.f, r.g, r.h, t, w);
    d, h := p.0, p.1;
  }

  /** Eight uses of the macro, each with the names shifted by one; then they are back in order. */
  method EightRounds(s: Suite, ghost n: nat, r: Regs, t: nat, w: seq<int>) returns (out: Regs)
    requires s.modulus > 0 && |w| == 8 && n >= 16
    ensures out == RoundsFrom(SuiteAlg(s, n), r, t, w)
  {
    ghost var alg := SuiteAlg(s, n);
    var a, b, c, d, e, f, g, h := r.a, r.b, r.c, r.d, r.e, r.f, r.g, r.h;
    d, h := UseMacro(s, Regs(a, b, c, d, e, f, g, h), t, w[0]);
    assert RoundsFrom(alg, r, t, w) == RoundsFrom(alg, Regs(h, a, b, c, d, e, f, g), t + 1, w[1..]);
    c, g := UseMacro(s, Regs(h, a, b, c, d, e, f, g), t + 1, w[1]);
    assert RoundsFrom(alg, r, t, w) == RoundsFrom(alg, Regs(g, h, a, b, c, d, e, f), t + 2, w[2..]);
    b, f := UseMacro(s, Regs(g, h, a, b, c, d, e, f), t + 2, w[2]);
    assert RoundsFrom(alg, r, t, w) == RoundsFrom(alg, Regs(f, g, h, a, b, c, d, e), t + 3, w[3..]);
    a, e := UseMacro(s, Regs(f, g, h, a, b, c, d, e), t + 3, w[3]);
    assert RoundsFrom(alg, r, t, w) == RoundsFrom(alg, Regs(e, f, g, h, a, b, c, d), t + 4, w[4..]);
    h, d := UseMacro(s, Regs(e, f, g, h, a, b, c, d), t + 4, w[4]);
    assert RoundsFrom(alg, r, t, w) == RoundsFrom(alg, Regs(d, e, f, g, h, a, b, c), t + 5, w[5..]);
    g, c := UseMacro(s, Regs(d, e, f, g, h, a, b, c), t + 5, w[5]);
    assert RoundsFrom(alg, r, t, w) == RoundsFrom(alg, Regs(c, d, e, f, g, h, a, b), t + 6, w[6..]);
    f, b := UseMacro(s, Regs(c, d, e, f, g, h, a, b), t + 6, w[6]);
    assert RoundsFrom(alg, r, t, w) == RoundsFrom(alg, Regs(b, c, d, e, f, g, h, a), t + 7, w[7..]);
    e, a := UseMacro(s, Regs(b, c, d, e, f, g, h, a), t + 7, w[7]);
    out := Regs(a, b, c, d, e, f, g, h);
  }

  /** The first sixteen rounds, over the block itself. */
  method FirstSixteen(s: Suite, n: nat, state: Regs, block: seq<int>) returns (r: Regs)
    requires s.modulus > 0 && n >= 16 && |block| == 16
    ensures r == Rounds(SuiteAlg(s, n), state, block)
  {
    var front, back := block[..8], block[8..];
    r := EightRounds(s, n, state, 0, front);
    RoundsJoin(SuiteAlg(s, n), state, [], front);
    assert [] + front == front;
    r := EightRounds(s, n, r, 8, back);
    RoundsJoin(SuiteAlg(s, n), state, front, back);
    assert front + back == block;
  }

  lemma FirstSixteenProgress(s: Suite, n: nat, state: Regs, block: seq<int>, r: Regs)
    requires s.modulus > 0 && n >= 16 && |block| == 16
    requires r == Rounds(SuiteAlg(s, n), state, block)
    ensures Progress(SuiteAlg(s, n), state, block, block, r) && Circular(block, block)
  {
  }

  lemma EightProgress(s: Suite, n: nat, state: Regs, block: seq<int>, ws: seq<int>, w: seq<int>, r: Regs)
    requires s.modulus > 0 && n >= 16 && |block| == 16
    requires Progress(SuiteAlg(s, n), state, block, ws, r)
    requires Scheduled(SuiteAlg(s, n), block, ws + w)
    ensures Progress(SuiteAlg(s, n), state, block, ws + w,
                     RoundsFrom(SuiteAlg(s, n), r, |ws|, w))
  {
    RoundsJoin(SuiteAlg(s, n), state, ws, w);
  }

  /** The remaining rounds, eight at a time. */
  method RemainingRounds(s: Suite, groups: nat, state: Regs, block: seq<int>, r0: Regs)
    returns (r: Regs)
    requires s.modulus > 0 && groups >= 2 && |block| == 16
    requires r0 == Rounds(SuiteAlg(s, 8 * groups), state, block)
    ensures var alg := SuiteAlg(s, 8 * groups);
            r == Rounds(alg, state, Schedule(alg, block, 8 * groups))
  {
    var alg := SuiteAlg(s, 8 * groups);
    var buf := CopyBlock(block);
    FirstSixteenProgress(s, 8 * groups, state, block, r0);
    r := r0;
    ghost var ws := block;
    for group := 2 to groups
      invariant |ws| == 8 * group && Circular(buf[..], ws)
      invariant Progress(alg, state, block, ws, r)
    {
      var w := ExpandSome(alg, block, buf, 8 * group, 8, ws);
      EightProgress(s, 8 * groups, state, block, ws, w, r);
      r := EightRounds(s, 8 * groups, r, 8 * group, w);
      ws := ws + w;
    }
    ScheduledIsSchedule(alg, block, ws);
  }

  /** The unrolled transform of SHA-256 (eight groups of eight rounds) and SHA-512 (ten groups)
      computes the same as the rolled one. */
  method TransformUnrolled(s: Suite, groups: nat, state: Regs, block: seq<int>) returns (out: Regs)
    requires s.modulus > 0 && groups >= 2 && |block| == 16
    ensures out == Compress(SuiteAlg(s, 8 * groups), state, block)
  {
    var r := FirstSixteen(s, 8 * groups, state, block);
    r := RemainingRounds(s, groups, state, block, r);
    out := AddRegs(s, state, r);
  }
}
