/** The 32-round key-mutating loop of VerusHash at the level of values: what one round reads, what it
    puts into the accumulator and which two key slots it overwrites.  The 128-bit instructions are
    the operations of a record, so everything here holds for every choice of them. */
module Clhash {
  import opened MachineWords

  /** AES round, the two interleavings, multiplication of the two halves of a block, rounded 16-bit
      multiplication, xor, the low half, and the block holding a 32-bit integer. */
  datatype Ops<!V> = Ops(aesenc: (V, V) -> V, unpacklo: (V, V) -> V, unpackhi: (V, V) -> V,
                         clmul: V -> V, mulhrs: (V, V) -> V, xor: (V, V) -> V,
                         low64: V -> u64, fromInt32: int -> V)

  const KEY_BLOCKS := 552    // keySizeInBytes >> 4
  const KEY_MASK := 511      // keyMask >> 4

  // ---------------------------------------------------------------- selector fields

  function Prand(selector: u64): (i: nat)
    ensures i <= KEY_MASK
  {
    (selector / 0x20) % 512
  }

  function Prandex(selector: u64): (i: nat)
    ensures i <= KEY_MASK
  {
    (selector / TWO32) % 512
  }

  function Pbuf(selector: u64): nat {
    selector % 4
  }

  /** The neighbour of `pbuf`: the block before an odd one, after an even one. */
  function Other(selector: u64): (i: nat)
    ensures i < 4 && i != Pbuf(selector)
  {
    if selector % 2 == 1 then Pbuf(selector) - 1 else Pbuf(selector) + 1
  }

  function Arm(selector: u64): nat {
    (selector / 4) % 8
  }

  function Iterations(selector: u64): (n: nat)
    ensures n <= 7
  {
    selector / 0x2000_0000_0000_0000
  }

  predicate Coin(selector: u64, rounds: nat) {
    (selector / (0x1000_0000 * Pow2(rounds))) % 2 == 1
  }

  // ---------------------------------------------------------------- signed remainder

  function Signed64(x: u64): int {
    if x < 0x8000_0000_0000_0000 then x else x - TWO64
  }

  function Divisor(selector: u64): int {
    var w := selector % TWO32;
    if w < TWO31 then w else w - TWO32
  }

  /** C's remainder: truncating division, so the sign is the dividend's. */
  function Rem(a: int, b: int): int
    requires b != 0
  {
    var m := if b < 0 then -b else b;
    if a >= 0 then a % m else -((-a) % m)
  }

  /** In both arms that divide, the divisor is neither 0 nor -1, and the remainder fits the 32-bit
      block it is put into. */
  lemma DivisionIsSafe(selector: u64, dividend: u64)
    requires Arm(selector) == 3 || Arm(selector) == 6
    ensures Divisor(selector) != 0 && Divisor(selector) != -1
    ensures -TWO31 < Rem(Signed64(dividend), Divisor(selector)) < TWO31
  {
    DivisorIsNonzero(selector);
  }

  lemma DivisorIsNonzero(selector: u64)
    requires Arm(selector) == 3 || Arm(selector) == 6
    ensures Divisor(selector) != 0 && Divisor(selector) != -1
  {
    ArmFromLowWord(selector, selector / TWO32, selector % TWO32 / 4, selector % 4);
  }

  lemma ArmFromLowWord(selector: nat, high: nat, quarter: nat, low: nat)
    requires selector == TWO32 * high + 4 * quarter + low && low < 4
    ensures selector / 4 % 8 == quarter % 8
  {
    assert selector / 4 == quarter + 8 * (0x800_0000 * high);
    EightsVanish(quarter, 0x800_0000 * high);
  }

  lemma EightsVanish(x: nat, k: nat)
    ensures (x + 8 * k) % 8 == x % 8
  {
  }

  // ---------------------------------------------------------------- one round

  /** What a round leaves behind; `prandLast` tells which of the two stores comes second, which
      matters when both slots are the same. */
  datatype Outcome<V> = Outcome(acc: V, atPrand: V, atPrandex: V, prandLast: bool)

  function Aes2<V>(o: Ops<V>, key: seq<V>, rc: nat, s0: V, s1: V): (V, V)
    requires rc + 3 < |key|
  {
    (o.aesenc(o.aesenc(s0, key[rc]), key[rc + 2]), o.aesenc(o.aesenc(s1, key[rc + 1]), key[rc + 3]))
  }

  function Mix2<V>(o: Ops<V>, s: (V, V)): (V, V) {
    (o.unpacklo(s.0, s.1), o.unpackhi(s.0, s.1))
  }

  /** acc := (a XOR b) folded by the carry-less product of its halves, XOR acc. */
  function Fold<V>(o: Ops<V>, a: V, b: V, acc: V): V {
    o.xor(o.clmul(o.xor(a, b)), acc)
  }

  /** The new contents of a slot that held k. */
  function Stir<V>(o: Ops<V>, acc: V, k: V): V {
    o.xor(o.mulhrs(acc, k), k)
  }

  function Arm0<V>(o: Ops<V>, kp: V, kx: V, b: V, c: V, acc: V): Outcome<V> {
    var acc1 := Fold(o, kx, c, acc);
    var acc2 := Fold(o, kp, b, acc1);
    Outcome(acc2, Stir(o, acc1, kx), Stir(o, acc2, kp), false)
  }

  function Arm1<V>(o: Ops<V>, kp: V, kx: V, b: V, c: V, acc: V): Outcome<V> {
    var acc1 := o.xor(o.clmul(b), Fold(o, kp, b, acc));
    var acc2 := o.xor(o.xor(kx, c), acc1);
    Outcome(acc2, Stir(o, acc2, kx), Stir(o, acc1, kp), true)
  }

  function Arm2<V>(o: Ops<V>, kp: V, kx: V, b: V, c: V, acc: V): Outcome<V> {
    var acc1 := o.xor(o.xor(kx, b), acc);
    var acc2 := o.xor(o.clmul(c), Fold(o, kp, c, acc1));
    Outcome(acc2, Stir(o, acc1, kx), Stir(o, acc2, kp), false)
  }

  function Arm3<V>(o: Ops<V>, v22: bool, selector: u64, kp: V, kx: V, b: V, c: V, acc: V): Outcome<V>
    requires Arm(selector) == 3
  {
    DivisorIsNonzero(selector);
    var acc1 := o.xor(o.xor(kp, c), acc);
    var dividend := o.low64(acc1);
    var acc2 := o.xor(o.fromInt32(Rem(Signed64(dividend), Divisor(selector))), acc1);
    if dividend % 2 == 1 then
      var acc3 := o.xor(o.clmul(b), Fold(o, kx, b, acc2));
      Outcome(acc3, Stir(o, acc3, kx), Stir(o, acc2, kp), true)
    else
      Outcome(if v22 then o.xor(b, acc2) else acc2, kx, Stir(o, acc2, kp), true)
  }

  function Arm4<V>(o: Ops<V>, key: seq<V>, p: nat, kx: V, b: V, c: V, acc: V): Outcome<V>
    requires p + 11 < |key|
  {
    var s1 := Mix2(o, Aes2(o, key, p, c, b));
    var s2 := Mix2(o, Aes2(o, key, p + 4, s1.0, s1.1));
    var s3 := Mix2(o, Aes2(o, key, p + 8, s2.0, s2.1));
    var acc1 := o.xor(s3.1, o.xor(s3.0, acc));
    Outcome(acc1, kx, o.xor(key[p], o.mulhrs(acc1, key[p])), true)
  }

  /** The do-while loop of arm 5: `rounds` more iterations after this one, with the read position
      moving by one each time and the AES offset by four in each AES iteration. */
  function Monkins<V>(o: Ops<V>, key: seq<V>, selector: u64, b: V, c: V,
                      rounds: nat, rc: nat, aes: nat, acc: V): V
    requires rc + aes + 5 * rounds + 4 < |key|
    decreases rounds
  {
    var coin := Coin(selector, rounds);
    var acc' := MonkinsStep(o, key, selector, b, c, rounds, rc, rc + 1 + aes, acc);
    if rounds == 0 then acc'
    else Monkins(o, key, selector, b, c, rounds - 1, rc + 1, if coin then aes else aes + 4, acc')
  }

  /** The two blocks of the buffer take turns. */
  function First<V>(rounds: nat, b: V, c: V): V {
    if rounds % 2 == 1 then b else c
  }

  /** One iteration with the key slot rc, and the four from i on if the coin asks for AES. */
  function MonkinsStep<V>(o: Ops<V>, key: seq<V>, selector: u64, b: V, c: V, rounds: nat,
                          rc: nat, i: nat, acc: V): V
    requires rc < |key| && i + 3 < |key|
  {
    if Coin(selector, rounds) then Fold(o, key[rc], First(rounds, b, c), acc)
    else
      var s := Mix2(o, Aes2(o, key, i, key[rc], First(rounds, c, b)));
      o.xor(s.1, o.xor(s.0, acc))
  }

  function Arm5<V>(o: Ops<V>, kp: V, kx: V, acc: V): Outcome<V> {
    Outcome(acc, kx, o.xor(kp, o.mulhrs(acc, kp)), true)
  }

  /** The do-while loop of arm 6; the second component is the value left in `onekey`. */
  function Modulo<V>(o: Ops<V>, v22: bool, key: seq<V>, selector: u64, b: V, c: V,
                     rounds: nat, rc: nat, acc: V): (V, V)
    requires Arm(selector) == 6 && rc + rounds < |key|
    decreases rounds
  {
    DivisorIsNonzero(selector);
    var coin := Coin(selector, rounds);
    var sum := o.xor(key[rc], if (rounds % 2 == 1) == coin then b else c);
    var onekey := if !v22 then key[rc] else if coin then sum else o.clmul(sum);
    var acc' := if coin then o.xor(o.fromInt32(Rem(Signed64(o.low64(sum)), Divisor(selector))), acc)
                else o.xor(o.mulhrs(acc, o.clmul(sum)), acc);
    if rounds == 0 then (acc', onekey)
    else Modulo(o, v22, key, selector, b, c, rounds - 1, rc + 1, acc')
  }

  function Arm6<V>(o: Ops<V>, v22: bool, kx: V, acc: V, onekey: V): Outcome<V> {
    if v22 then Outcome(acc, o.xor(kx, acc), onekey, true)
    else Outcome(acc, onekey, o.xor(kx, acc), true)
  }

  function Arm7<V>(o: Ops<V>, v22: bool, kp: V, kx: V, b: V, c: V, acc: V): Outcome<V> {
    var acc1 := Fold(o, b, kx, acc);
    var acc2 := o.xor(kp, acc1);
    var acc3 := if v22 then o.xor(c, acc2) else acc2;
    Outcome(acc3, Stir(o, acc1, kx), Stir(o, acc3, kp), false)
  }

  function Round<V>(o: Ops<V>, v22: bool, key: seq<V>, pbuf: seq<V>, acc: V): Outcome<V>
    requires |key| >= KEY_MASK + 40 && |pbuf| == 4
  {
    var selector := o.low64(acc);
    var p, x := Prand(selector), Prandex(selector);
    var kp, kx, b, c := key[p], key[x], pbuf[Pbuf(selector)], pbuf[Other(selector)];
    var arm := Arm(selector);
    if arm == 0 then Arm0(o, kp, kx, b, c, acc)
    else if arm == 1 then Arm1(o, kp, kx, b, c, acc)
    else if arm == 2 then Arm2(o, kp, kx, b, c, acc)
    else if arm == 3 then Arm3(o, v22, selector, kp, kx, b, c, acc)
    else if arm == 4 then Arm4(o, key, p, kx, b, c, acc)
    else if arm == 5 then
      Arm5(o, kp, kx, Monkins(o, key, selector, b, c, Iterations(selector), p, 0, acc))
    else if arm == 6 then
      var r := Modulo(o, v22, key, selector, b, c, Iterations(selector), p, acc);
      Arm6(o, v22, kx, r.0, r.1)
    else Arm7(o, v22, kp, kx, b, c, acc)
  }

  function Store<V>(key: seq<V>, p: nat, x: nat, w: Outcome<V>): (r: seq<V>)
    requires p < |key| && x < |key|
    ensures |r| == |key|
  {
    if w.prandLast then key[x := w.atPrandex][p := w.atPrand]
    else key[p := w.atPrand][x := w.atPrandex]
  }

  /** Accumulator, key and move log after n rounds. */
  datatype Trace<V> = Trace(acc: V, key: seq<V>, log: seq<nat>)

  function Rounds<V>(o: Ops<V>, v22: bool, key: seq<V>, pbuf: seq<V>, acc: V, n: nat): (t: Trace<V>)
    requires |key| >= KEY_MASK + 40 && |pbuf| == 4
    ensures |t.key| == |key| && |t.log| == 2 * n
  {
    if n == 0 then Trace(acc, key, [])
    else
      Next(o, v22, pbuf, Rounds(o, v22, key, pbuf, acc, n - 1))
  }

  function Next<V>(o: Ops<V>, v22: bool, pbuf: seq<V>, t: Trace<V>): (u: Trace<V>)
    requires |t.key| >= KEY_MASK + 40 && |pbuf| == 4
    ensures |u.key| == |t.key| && |u.log| == |t.log| + 2
  {
    Advance(t, o.low64(t.acc), Round(o, v22, t.key, pbuf, t.acc))
  }

  /** Both slots are logged, then overwritten. */
  function Advance<V>(t: Trace<V>, selector: u64, w: Outcome<V>): (u: Trace<V>)
    requires |t.key| > KEY_MASK
  {
    var p, x := Prand(selector), Prandex(selector);
    Trace(w.acc, Store(t.key, p, x, w), t.log + [p, x])
  }

  // ---------------------------------------------------------------- what a round reads

  ghost predicate AgreeOn<V>(k1: seq<V>, k2: seq<V>, lo: nat, hi: nat) {
    hi < |k1| && hi < |k2| && forall i :: lo <= i <= hi ==> k1[i] == k2[i]
  }

  lemma {:induction false} MonkinsWindow<V>(o: Ops<V>, k1: seq<V>, k2: seq<V>, selector: u64, b: V,
                                            c: V, rounds: nat, rc: nat, aes: nat, acc: V, lo: nat, hi: nat)
    requires AgreeOn(k1, k2, lo, hi) && lo <= rc && rc + aes + 5 * rounds + 4 <= hi
    ensures Monkins(o, k1, selector, b, c, rounds, rc, aes, acc)
         == Monkins(o, k2, selector, b, c, rounds, rc, aes, acc)
    decreases rounds
  {
    var i, rc', aes' := rc + 1 + aes, rc + 1, if Coin(selector, rounds) then aes else aes + 4;
    var next := MonkinsStep(o, k1, selector, b, c, rounds, rc, i, acc);
    StepWindow(o, k1, k2, selector, b, c, rounds, rc, i, acc, lo, hi);
    if rounds > 0 {
      MonkinsWindow(o, k1, k2, selector, b, c, rounds - 1, rc', aes', next, lo, hi);
    }
    MonkinsJoin(o, k1, k2, selector, b, c, rounds, rc, aes, acc, i, rc', aes', next);
  }

  lemma MonkinsJoin<V>(o: Ops<V>, k1: seq<V>, k2: seq<V>, selector: u64, b: V, c: V, rounds: nat, rc: nat,
                       aes: nat, acc: V, i: nat, rc': nat, aes': nat, next: V)
    requires rc + aes + 5 * rounds + 4 < |k1| && rc + aes + 5 * rounds + 4 < |k2| && i == rc + 1 + aes
    requires rc' == rc + 1 && aes' == if Coin(selector, rounds) then aes else aes + 4
    requires next == MonkinsStep(o, k1, selector, b, c, rounds, rc, i, acc)
    requires next == MonkinsStep(o, k2, selector, b, c, rounds, rc, i, acc)
    requires rounds > 0 ==>
               Monkins(o, k1, selector, b, c, rounds - 1, rc', aes', next)
               == Monkins(o, k2, selector, b, c, rounds - 1, rc', aes', next)
    ensures Monkins(o, k1, selector, b, c, rounds, rc, aes, acc)
         == Monkins(o, k2, selector, b, c, rounds, rc, aes, acc)
  {
    var next1 := MonkinsNext(o, k1, selector, b, c, rounds, rc, aes, acc, i, rc', aes');
    var next2 := MonkinsNext(o, k2, selector, b, c, rounds, rc, aes, acc, i, rc', aes');
  }

  lemma MonkinsNext<V>(o: Ops<V>, key: seq<V>, selector: u64, b: V, c: V, rounds: nat, rc: nat, aes: nat,
                       acc: V, i: nat, rc': nat, aes': nat) returns (next: V)
    requires rc + aes + 5 * rounds + 4 < |key| && i == rc + 1 + aes
    requires rc' == rc + 1 && aes' == if Coin(selector, rounds) then aes else aes + 4
    ensures next == MonkinsStep(o, key, selector, b, c, rounds, rc, i, acc)
    ensures Monkins(o, key, selector, b, c, rounds, rc, aes, acc)
         == if rounds == 0 then next else Monkins(o, key, selector, b, c, rounds - 1, rc', aes', next)
  {
    next := MonkinsStep(o, key, selector, b, c, rounds, rc, i, acc);
  }

  lemma StepWindow<V>(o: Ops<V>, k1: seq<V>, k2: seq<V>, selector: u64, b: V, c: V, rounds: nat,
                      rc: nat, i: nat, acc: V, lo: nat, hi: nat)
    requires AgreeOn(k1, k2, lo, hi) && lo <= rc < i && i + 3 <= hi
    ensures MonkinsStep(o, k1, selector, b, c, rounds, rc, i, acc)
         == MonkinsStep(o, k2, selector, b, c, rounds, rc, i, acc)
  {
    assert k1[i] == k2[i] && k1[i + 1] == k2[i + 1] && k1[i + 2] == k2[i + 2] && k1[i + 3] == k2[i + 3];
  }

  lemma {:induction false} ModuloWindow<V>(o: Ops<V>, v22: bool, k1: seq<V>, k2: seq<V>,
                                           selector: u64, b: V, c: V, rounds: nat, rc: nat, acc: V)
    requires Arm(selector) == 6 && AgreeOn(k1, k2, rc, rc + rounds)
    ensures Modulo(o, v22, k1, selector, b, c, rounds, rc, acc)
         == Modulo(o, v22, k2, selector, b, c, rounds, rc, acc)
    decreases rounds
  {
    DivisorIsNonzero(selector);
    if rounds > 0 {
      var coin := Coin(selector, rounds);
      var sum := o.xor(k1[rc], if (rounds % 2 == 1) == coin then b else c);
      var acc' := if coin then o.xor(o.fromInt32(Rem(Signed64(o.low64(sum)), Divisor(selector))), acc)
                  else o.xor(o.mulhrs(acc, o.clmul(sum)), acc);
      ModuloWindow(o, v22, k1, k2, selector, b, c, rounds - 1, rc + 1, acc');
    }
  }

  /** A round looks at no key slot but `prandex` and the 40 slots from `prand` on, so never past
      slot 550. */
  lemma RoundWindow<V>(o: Ops<V>, v22: bool, k1: seq<V>, k2: seq<V>, pbuf: seq<V>, acc: V)
    requires |k1| >= KEY_MASK + 40 && |k2| >= KEY_MASK + 40 && |pbuf| == 4
    requires var p := Prand(o.low64(acc)); AgreeOn(k1, k2, p, p + 39)
    requires var x := Prandex(o.low64(acc)); k1[x] == k2[x]
    ensures Round(o, v22, k1, pbuf, acc) == Round(o, v22, k2, pbuf, acc)
  {
    var selector := o.low64(acc);
    var p, b, c := Prand(selector), pbuf[Pbuf(selector)], pbuf[Other(selector)];
    var arm := Arm(selector);
    if arm == 4 {
      assert forall i :: p <= i <= p + 11 ==> k1[i] == k2[i];
    } else if arm == 5 {
      MonkinsWindow(o, k1, k2, selector, b, c, Iterations(selector), p, 0, acc, p, p + 39);
    } else if arm == 6 {
      ModuloWindow(o, v22, k1, k2, selector, b, c, Iterations(selector), p, acc);
    }
  }

  /** Instructions that let a slot be seen in the accumulator: an AES step yields its key, xor its
      first operand, the upper interleaving its second. */
  function ProbeOps(): Ops<u64> {
    Ops((a, k) => k, (a, b) => a, (a, b) => b, a => a, (a, k) => a, (a, b) => a, a => a, i => 0)
  }

  /** With AES in every iteration, what the last one reads is this far past the slot it started from. */
  lemma {:induction false} MonkinsReadsLast(key: seq<u64>, selector: u64, b: u64, c: u64,
                                            rounds: nat, rc: nat, aes: nat, acc: u64)
    requires rc + aes + 5 * rounds + 4 < |key|
    requires forall r: nat :: r <= rounds ==> !Coin(selector, r)
    ensures Monkins(ProbeOps(), key, selector, b, c, rounds, rc, aes, acc) == key[rc + aes + 5 * rounds + 4]
    decreases rounds
  {
    var i := rc + 1 + aes;
    ProbeStep(key, selector, b, c, rounds, rc, i, acc);
    var next := MonkinsNext(ProbeOps(), key, selector, b, c, rounds, rc, aes, acc, i, rc + 1, aes + 4);
    if rounds > 0 {
      MonkinsReadsLast(key, selector, b, c, rounds - 1, rc + 1, aes + 4, key[i + 3]);
    }
  }

  lemma ProbeStep(key: seq<u64>, selector: u64, b: u64, c: u64, rounds: nat, rc: nat, i: nat, acc: u64)
    requires rc < |key| && i + 3 < |key| && !Coin(selector, rounds)
    ensures MonkinsStep(ProbeOps(), key, selector, b, c, rounds, rc, i, acc) == key[i + 3]
  {
  }

  /** The bound is met: from some accumulator a round's result is the slot 39 places past the mask,
      whatever the key holds. */
  lemma BoundIsMet(v22: bool, key: seq<u64>, pbuf: seq<u64>) returns (acc: u64)
    requires |key| >= KEY_MASK + 40 && |pbuf| == 4
    ensures Round(ProbeOps(), v22, key, pbuf, acc).acc == key[KEY_MASK + 39]
  {
    acc := WorstSelector();
    RoundOfArm5(ProbeOps(), v22, key, pbuf, acc, acc);
    MonkinsReadsLast(key, acc, pbuf[Pbuf(acc)], pbuf[Other(acc)], 7, KEY_MASK, 0, acc);
  }

  lemma RoundOfArm5<V>(o: Ops<V>, v22: bool, key: seq<V>, pbuf: seq<V>, acc: V, selector: u64)
    requires |key| >= KEY_MASK + 40 && |pbuf| == 4 && selector == o.low64(acc) && Arm(selector) == 5
    ensures Round(o, v22, key, pbuf, acc).acc
         == Monkins(o, key, selector, pbuf[Pbuf(selector)], pbuf[Other(selector)],
                    Iterations(selector), Prand(selector), 0, acc)
  {
  }

  /** A selector that asks for eight AES iterations from the last slot of the mask on. */
  lemma WorstSelector() returns (selector: u64)
    ensures Arm(selector) == 5 && Prand(selector) == KEY_MASK && Iterations(selector) == 7
    ensures forall r: nat | r <= Iterations(selector) :: !Coin(selector, r)
  {
    selector := 0xE000_0000_0000_3FF4;
    forall r: nat | r <= 7 ensures !Coin(selector, r) {
      NoCoin(r);
    }
  }

  lemma NoCoin(r: nat)
    requires r <= 7
    ensures !Coin(0xE000_0000_0000_3FF4, r)
  {
    assert Pow2(1) == 2 && Pow2(2) == 4 && Pow2(3) == 8 && Pow2(4) == 16;
    assert Pow2(5) == 32 && Pow2(6) == 64 && Pow2(7) == 128;
    if r == 0 {} else if r == 1 {} else if r == 2 {} else if r == 3 {}
    else if r == 4 {} else if r == 5 {} else if r == 6 {} else {}
  }

  // ---------------------------------------------------------------- the undo log

  function Restore<V>(key: seq<V>, pristine: seq<V>, log: seq<nat>): (r: seq<V>)
    requires forall i :: 0 <= i < |log| ==> log[i] < |key| && log[i] < |pristine|
    ensures |r| == |key|
    decreases |log|
  {
    if log == [] then key
    else Restore(key[log[0] := pristine[log[0]]], pristine, log[1..])
  }

  lemma {:induction false} RestoreAt<V>(key: seq<V>, pristine: seq<V>, log: seq<nat>, j: nat)
    requires forall i :: 0 <= i < |log| ==> log[i] < |key| && log[i] < |pristine|
    requires j < |key|
    ensures Restore(key, pristine, log)[j] == if j in log then pristine[j] else key[j]
    decreases |log|
  {
    if log != [] {
      RestoreAt(key[log[0] := pristine[log[0]]], pristine, log[1..], j);
    }
  }

  /** A slot the log does not name still holds its original value, and the log names only the first
      512 slots. */
  ghost predicate Logged<V>(key: seq<V>, t: Trace<V>) {
    && |t.key| == |key| > KEY_MASK
    && (forall i :: 0 <= i < |t.log| ==> t.log[i] <= KEY_MASK)
    && (forall j :: 0 <= j < |key| && j !in t.log ==> t.key[j] == key[j])
  }

  lemma AdvanceKeepsLogged<V>(key: seq<V>, t: Trace<V>, selector: u64, w: Outcome<V>)
    requires Logged(key, t)
    ensures Logged(key, Advance(t, selector, w))
  {
    var u := Advance(t, selector, w);
    forall j | 0 <= j < |key| && j !in u.log ensures u.key[j] == key[j] {
      assert u.log[|t.log|] == Prand(selector) && u.log[|t.log| + 1] == Prandex(selector);
      assert forall i :: 0 <= i < |t.log| ==> u.log[i] == t.log[i];
    }
  }

  lemma {:induction false} RoundsLogged<V>(o: Ops<V>, v22: bool, key: seq<V>, pbuf: seq<V>,
                                           acc: V, n: nat)
    requires |key| >= KEY_MASK + 40 && |pbuf| == 4
    ensures Logged(key, Rounds(o, v22, key, pbuf, acc, n))
  {
    if n == 0 {
      NothingLogged(o, v22, key, pbuf, acc, n);
    } else {
      RoundsLogged(o, v22, key, pbuf, acc, n - 1);
      OneMoreLogged(o, v22, key, pbuf, acc, n);
    }
  }

  lemma NothingLogged<V>(o: Ops<V>, v22: bool, key: seq<V>, pbuf: seq<V>, acc: V, n: nat)
    requires |key| >= KEY_MASK + 40 && |pbuf| == 4 && n == 0
    ensures Logged(key, Rounds(o, v22, key, pbuf, acc, n))
  {
  }

  lemma OneMoreLogged<V>(o: Ops<V>, v22: bool, key: seq<V>, pbuf: seq<V>, acc: V, n: nat)
    requires |key| >= KEY_MASK + 40 && |pbuf| == 4 && n > 0
    requires Logged(key, Rounds(o, v22, key, pbuf, acc, n - 1))
    ensures Logged(key, Rounds(o, v22, key, pbuf, acc, n))
  {
    NextKeepsLogged(o, v22, key, pbuf, Rounds(o, v22, key, pbuf, acc, n - 1));
  }

  lemma NextKeepsLogged<V>(o: Ops<V>, v22: bool, key: seq<V>, pbuf: seq<V>, t: Trace<V>)
    requires |key| >= KEY_MASK + 40 && |pbuf| == 4 && Logged(key, t)
    ensures Logged(key, Next(o, v22, pbuf, t))
  {
    AdvanceKeepsLogged(key, t, o.low64(t.acc), Round(o, v22, t.key, pbuf, t.acc));
  }

  /** Putting back the logged slots from a copy of the first 512 undoes any number of rounds, also
      when a slot was hit repeatedly or as both `prand` and `prandex` of one round. */
  lemma UndoRestoresKey<V>(o: Ops<V>, v22: bool, key: seq<V>, pbuf: seq<V>, acc: V, n: nat,
                           refresh: seq<V>)
    requires |key| >= KEY_MASK + 40 && |pbuf| == 4
    requires |refresh| > KEY_MASK && forall i :: 0 <= i <= KEY_MASK ==> refresh[i] == key[i]
    ensures var t := Rounds(o, v22, key, pbuf, acc, n);
            && (forall i :: 0 <= i < |t.log| ==> t.log[i] < |key| && t.log[i] < |refresh|)
            && Restore(t.key, refresh, t.log) == key
  {
    RoundsLogged(o, v22, key, pbuf, acc, n);
    var t := Rounds(o, v22, key, pbuf, acc, n);
    forall j | 0 <= j < |key| ensures Restore(t.key, refresh, t.log)[j] == key[j] {
      RestoreAt(t.key, refresh, t.log, j);
    }
  }
}
