/** The rounds of SHA-1, rolled and unrolled. */
module Sha1Rounds {
  import opened MachineWords
  import opened Sha2Schedule
  import opened Sha2Rounds

  function Rotl1(x: bv32): bv32 {
    (x << 1) | (x >> 31)
  }

  function Rotl5(x: bv32): bv32 {
    (x << 5) | (x >> 27)
  }

  function Rotl30(x: bv32): bv32 {
    (x << 30) | (x >> 2)
  }

  lemma RotlsOfFips(x: bv32)
    ensures Rotl1(x) == x.RotateLeft(1) && Rotl5(x) == x.RotateLeft(5)
    ensures Rotl30(x) == x.RotateLeft(30)
  {
  }

  datatype Regs5 = Regs5(a: int, b: int, c: int, d: int, e: int)

  const SHA1_INITIAL := Regs5(0x67452301, 0xefcdab89, 0x98badcfe, 0x10325476, 0xc3d2e1f0)

  function Parity32(x: bv32, y: bv32, z: bv32): bv32 {
    x ^ y ^ z
  }

  /** Ch, Parity, Maj and Parity again, twenty rounds each. */
  function F(t: nat, b: int, c: int, d: int): int {
    if t < 20 then Choose32(W32(b), W32(c), W32(d)) as int
    else if t < 40 || t >= 60 then Parity32(W32(b), W32(c), W32(d)) as int
    else Majority32(W32(b), W32(c), W32(d)) as int
  }

  function K(t: nat): int {
    if t < 20 then 0x5a827999 else if t < 40 then 0x6ed9eba1 else if t < 60 then 0x8f1bbcdc else 0xca62c1d6
  }

  /** The parts a round is made of; rotations are of 32-bit words. */
  datatype Suite5 = Suite5(f: (nat, int, int, int) -> int, k: nat -> int, mix: (int, int, int, int) -> int,
                           rotl5: int -> int, rotl30: int -> int)

  function Sha1Suite(): Suite5 {
    Suite5((t: nat, b, c, d) => F(t, b, c, d), (t: nat) => K(t),
           (x, y, z, w) => Rotl1(W32(x) ^ W32(y) ^ W32(z) ^ W32(w)) as int,
           x => Rotl5(W32(x)) as int, x => Rotl30(W32(x)) as int)
  }

  function Sum(s: Suite5, a: int, b: int, c: int, d: int, e: int, t: nat, w: int): int {
    (s.rotl5(a) + s.f(t, b, c, d) + e + s.k(t) + w) % TWO32
  }

  function Round1(s: Suite5, r: Regs5, t: nat, w: int): Regs5 {
    Regs5(Sum(s, r.a, r.b, r.c, r.d, r.e, t, w), r.a, s.rotl30(r.b), r.c, r.d)
  }

  function AddRegs5(x: Regs5, y: Regs5): Regs5 {
    Regs5((x.a + y.a) % TWO32, (x.b + y.b) % TWO32, (x.c + y.c) % TWO32, (x.d + y.d) % TWO32,
          (x.e + y.e) % TWO32)
  }

  /** The words 16, 14, 8 and 3 back are 0, 2, 8 and 13 places into the last sixteen. */
  function Suite5Alg(s: Suite5, rounds: nat): (alg: Alg<Regs5>)
    requires rounds >= 16
    ensures WellFormed(alg)
  {
    Alg(2, 8, 13, (w16, w14, w8, w3) => s.mix(w3, w8, w14, w16), (r, t, w) => Round1(s, r, t, w),
        (x, y) => AddRegs5(x, y), rounds)
  }

  /** One use of an unrolled macro, which changes the fifth and the second variable of its arguments. */
  method UseMacro1(s: Suite5, r: Regs5, t: nat, w: int) returns (e: int, b: int)
    ensures Round1(s, r, t, w) == Regs5(e, r.a, b, r.c, r.d)
  {
    e, b := Sum(s, r.a, r.b, r.c, r.d, r.e, t, w), s.rotl30(r.b);
  }

  /** Five uses, each with the names shifted by one; then they are back in order. */
  method FiveRounds(s: Suite5, ghost n: nat, r: Regs5, t: nat, w: seq<int>) returns (out: Regs5)
    requires |w| == 5 && n >= 16
    ensures out == RoundsFrom(Suite5Alg(s, n), r, t, w)
  {
    ghost var alg := Suite5Alg(s, n);
    var a, b, c, d, e := r.a, r.b, r.c, r.d, r.e;
    e, b := UseMacro1(s, Regs5(a, b, c, d, e), t, w[0]);
    assert RoundsFrom(alg, r, t, w) == RoundsFrom(alg, Regs5(e, a, b, c, d), t + 1, w[1..]);
    d, a := UseMacro1(s, Regs5(e, a, b, c, d), t + 1, w[1]);
    assert RoundsFrom(alg, r, t, w) == RoundsFrom(alg, Regs5(d, e, a, b, c), t + 2, w[2..]);
    c, e := UseMacro1(s, Regs5(d, e, a, b, c), t + 2, w[2]);
    assert RoundsFrom(alg, r, t, w) == RoundsFrom(alg, Regs5(c, d, e, a, b), t + 3, w[3..]);
    b, d := UseMacro1(s, Regs5(c, d, e, a, b), t + 3, w[3]);
    assert RoundsFrom(alg, r, t, w) == RoundsFrom(alg, Regs5(b, c, d, e, a), t + 4, w[4..]);
    a, c := UseMacro1(s, Regs5(b, c, d, e, a), t + 4, w[4]);
    out := Regs5(a, b, c, d, e);
  }

  /** Fifteen rounds over the block itself: the macros' names are in order again after each five. */
  method FirstFifteen(s: Suite5, n: nat, state: Regs5, block: seq<int>) returns (r: Regs5)
    requires n >= 16 && |block| == 16
    ensures r == Rounds(Suite5Alg(s, n), state, block[..15])
  {
    r := state;
    assert block[..0] == [];
    var j := 0;
    while j < 15
      invariant (j == 0 || j == 5 || j == 10 || j == 15) && r == Rounds(Suite5Alg(s, n), state, block[..j])
    {
      r := FiveOfBlock(s, n, state, block, j, r);
      j := j + 5;
    }
  }

  method FiveOfBlock(s: Suite5, n: nat, ghost state: Regs5, block: seq<int>, j: nat, r: Regs5)
    returns (out: Regs5)
    requires n >= 16 && j + 5 <= |block| && r == Rounds(Suite5Alg(s, n), state, block[..j])
    ensures out == Rounds(Suite5Alg(s, n), state, block[..j + 5])
  {
    var end := j + 5;
    out := FiveRounds(s, n, r, j, block[j..end]);
    RoundsJoin(Suite5Alg(s, n), state, block[..j], block[j..end]);
    assert block[..j] + block[j..end] == block[..end];
  }

  lemma FiveProgress(s: Suite5, n: nat, state: Regs5, block: seq<int>, ws: seq<int>, w: seq<int>,
                     all: seq<int>, r: Regs5)
    requires n >= 16 && |block| == 16 && ws + w == all
    requires r == Rounds(Suite5Alg(s, n), state, ws) && Scheduled(Suite5Alg(s, n), block, all)
    ensures Progress(Suite5Alg(s, n), state, block, all, RoundsFrom(Suite5Alg(s, n), r, |ws|, w))
  {
    RoundsJoin(Suite5Alg(s, n), state, ws, w);
  }

  lemma BlockIsScheduled(s: Suite5, n: nat, block: seq<int>)
    requires n >= 16 && |block| == 16
    ensures Scheduled(Suite5Alg(s, n), block, block) && Circular(block, block)
  {
  }

  /** The fourth five rounds: the block's last word and the first four words of the expansion. */
  method FourthFive(s: Suite5, n: nat, ghost state: Regs5, block: seq<int>, buf: array<int>, r0: Regs5)
    returns (r: Regs5, ghost ws: seq<int>)
    requires n >= 16 && |block| == 16 && buf[..] == block
    requires r0 == Rounds(Suite5Alg(s, n), state, block[..15])
    modifies buf
    ensures |ws| == 20 && Circular(buf[..], ws) && Progress(Suite5Alg(s, n), state, block, ws, r)
  {
    BlockIsScheduled(s, n, block);
    var w := ExpandSome(Suite5Alg(s, n), block, buf, 16, 4, block);
    ws := block + w;
    w := [block[15]] + w;
    FiveProgress(s, n, state, block, block[..15], w, ws, r0);
    r := FiveRounds(s, n, r0, 15, w);
  }

  method NextFive(s: Suite5, n: nat, ghost state: Regs5, block: seq<int>, buf: array<int>, j: nat,
                  ghost ws: seq<int>, r0: Regs5)
    returns (r: Regs5, ghost more: seq<int>)
    requires n >= 16 && |block| == 16 && |ws| == j && Circular(buf[..], ws)
    requires Progress(Suite5Alg(s, n), state, block, ws, r0)
    modifies buf
    ensures |more| == j + 5 && Circular(buf[..], more)
    ensures Progress(Suite5Alg(s, n), state, block, more, r)
  {
    var w := ExpandSome(Suite5Alg(s, n), block, buf, j, 5, ws);
    more := ws + w;
    FiveProgress(s, n, state, block, ws, w, more, r0);
    r := FiveRounds(s, n, r0, j, w);
  }

  /** The unrolled transform (sixteen groups of five rounds) computes the same as the rolled one. */
  method TransformUnrolled1(s: Suite5, groups: nat, state: Regs5, block: seq<int>) returns (out: Regs5)
    requires groups >= 4 && |block| == 16
    ensures out == Compress(Suite5Alg(s, 5 * groups), state, block)
  {
    var n := 5 * groups;
    var r := FirstFifteen(s, n, state, block);
    var buf := CopyBlock(block);
    ghost var ws;
    r, ws := FourthFive(s, n, state, block, buf, r);
    for group := 4 to groups
      invariant |ws| == 5 * group && Circular(buf[..], ws)
      invariant Progress(Suite5Alg(s, n), state, block, ws, r)
    {
      r, ws := NextFive(s, n, state, block, buf, 5 * group, ws, r);
    }
    ScheduledIsSchedule(Suite5Alg(s, n), block, ws);
    out := AddRegs5(state, r);
  }
}
