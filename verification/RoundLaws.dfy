/** What each of the eight kinds of round does, in the instructions and the old key slots alone: the new
    accumulator, and the two stores in the order in which they happen, so that the second one stays when
    both name the same slot. */
module RoundLaws {
  import opened Clhash
  import opened MachineWords

  // ---------------------------------------------------------------- the selector

  /** The fields of the selector, from the lowest bits up: the buffer block, the arm, the first slot, 18
      bits that are not used, the second slot, 20 bits with the coins, and the iterations. */
  lemma SelectorFields(selector: u64)
    ensures var low, high := selector / 0x4000 % 0x4_0000, selector / 0x200_0000_0000 % 0x10_0000;
            selector == Pbuf(selector) + 4 * Arm(selector) + 0x20 * Prand(selector) + 0x4000 * low
                        + TWO32 * Prandex(selector) + 0x200_0000_0000 * high
                        + 0x2000_0000_0000_0000 * Iterations(selector)
    ensures Pbuf(selector) < 4 && Arm(selector) < 8 && Prand(selector) < 512 && Prandex(selector) < 512
    ensures Iterations(selector) < 8
  {
    var x, y := selector % TWO32, selector / TWO32;
    LowHalf(x);
    HighHalf(y);
    LowFields(selector, x, y);
    HighFields(selector, x, y);
    FieldSum(selector, x, y, Pbuf(selector), Arm(selector), Prand(selector), x / 0x4000,
             Prandex(selector), y / 512 % 0x10_0000, Iterations(selector));
  }

  /** The other block is the neighbour within a pair. */
  lemma OtherIsNeighbour(selector: u64)
    ensures Other(selector) / 2 == Pbuf(selector) / 2 && Other(selector) != Pbuf(selector)
  {
    Parity(selector, selector / 4, selector % 4);
  }

  lemma Parity(s: nat, q: nat, r: nat)
    requires s == 4 * q + r && r < 4
    ensures s % 2 == 1 <==> r == 1 || r == 3
  {
  }

  lemma FieldSum(s: nat, x: nat, y: nat, pbuf: nat, arm: nat, p: nat, low: nat, q: nat, high: nat, n: nat)
    requires s == x + TWO32 * y && x == pbuf + 4 * arm + 0x20 * p + 0x4000 * low
    requires y == q + 512 * high + 0x2000_0000 * n
    ensures s == pbuf + 4 * arm + 0x20 * p + 0x4000 * low + TWO32 * q + 0x200_0000_0000 * high
                 + 0x2000_0000_0000_0000 * n
  {
  }

  lemma LowHalf(x: nat)
    requires x < TWO32
    ensures x == x % 4 + 4 * (x / 4 % 8) + 0x20 * (x / 0x20 % 512) + 0x4000 * (x / 0x4000)
    ensures x / 0x4000 < 0x4_0000
  {
    assert x / 0x20 == x / 4 / 8 && x / 0x4000 == x / 0x20 / 512;
  }

  lemma HighHalf(y: nat)
    requires y < TWO32
    ensures y == y % 512 + 512 * (y / 512 % 0x10_0000) + 0x2000_0000 * (y / 0x2000_0000)
    ensures y / 0x2000_0000 < 8
  {
    assert y / 0x2000_0000 == y / 512 / 0x10_0000;
  }

  lemma LowFields(s: nat, x: nat, y: nat)
    requires s == x + TWO32 * y && x < TWO32 && y < TWO32
    ensures s % 4 == x % 4 && s / 4 % 8 == x / 4 % 8 && s / 0x20 % 512 == x / 0x20 % 512
    ensures s / 0x4000 % 0x4_0000 == x / 0x4000
  {
    LowField(s, x, y, 4, 0x4000_0000);
    LowField(s, x, y, 0x20, 0x800_0000);
    LowField(s, x, y, 0x4000, 0x4_0000);
    Vanishes(x, 0x4000_0000 * y, 4);
    Vanishes(x / 4, 0x800_0000 * y, 8);
    Vanishes(x / 0x20, 0x4_0000 * y, 512);
    Vanishes(x / 0x4000, y, 0x4_0000);
  }

  lemma LowField(s: nat, x: nat, y: nat, d: nat, e: nat)
    requires s == x + TWO32 * y
    requires (d == 4 && e == 0x4000_0000) || (d == 0x20 && e == 0x800_0000) || (d == 0x4000 && e == 0x4_0000)
    ensures s / d == x / d + e * y
  {
  }

  lemma Vanishes(x: nat, k: nat, m: nat)
    requires m == 4 || m == 8 || m == 512 || m == 0x4_0000
    ensures (x + m * k) % m == x % m
  {
  }

  lemma HighFields(s: nat, x: nat, y: nat)
    requires s == x + TWO32 * y && x < TWO32 && y < TWO32
    ensures s / TWO32 % 512 == y % 512 && s / 0x200_0000_0000 % 0x10_0000 == y / 512 % 0x10_0000
    ensures s / 0x2000_0000_0000_0000 == y / 0x2000_0000
  {
    assert s / TWO32 == y;
    assert s / 0x200_0000_0000 == y / 512;
    assert s / 0x2000_0000_0000_0000 == y / 0x2000_0000;
  }

  /** The coin of an iteration is a bit of the selector: bit 28 for the last one, and one bit higher for
      each before it. */
  lemma CoinIsBit(selector: u64, rounds: nat, one: nat) returns (low: nat, bit: nat, high: nat)
    requires one == 0x1000_0000 * Pow2(rounds)
    ensures selector == low + one * bit + 2 * (one * high) && low < one && bit < 2
    ensures Coin(selector, rounds) <==> bit == 1
  {
    var q;
    q, low, bit, high := BitOf(selector, one);
    CoinOf(selector, rounds, one, q);
  }

  lemma CoinOf(selector: u64, rounds: nat, one: nat, q: nat)
    requires one == 0x1000_0000 * Pow2(rounds) && q == selector / one
    ensures Coin(selector, rounds) <==> q % 2 == 1
  {
  }

  lemma BitOf(s: nat, one: nat) returns (q: nat, low: nat, bit: nat, high: nat)
    requires one > 0
    ensures q == s / one && bit == q % 2 && bit < 2
    ensures s == low + one * bit + 2 * (one * high) && low < one
  {
    DivMod(s, one);
    q, low := s / one, s % one;
    bit, high := q % 2, q / 2;
    assert q == 2 * high + bit;
    Distribute(one, high, bit);
  }

  lemma DivMod(s: nat, one: nat)
    requires one > 0
    ensures s == one * (s / one) + s % one && 0 <= s % one < one
  {
  }

  lemma Distribute(one: nat, h: nat, e: nat)
    ensures one * (2 * h + e) == 2 * (one * h) + one * e
  {
  }

  // ---------------------------------------------------------------- the remainder

  /** C's remainder: the quotient cuts off towards zero, so the remainder is smaller than the divisor in
      absolute value and has the dividend's sign. */
  lemma RemTruncates(a: int, b: int) returns (q: int)
    requires b != 0
    ensures var r := Rem(a, b);
            && a == q * b + r && (if a >= 0 then 0 <= r else r <= 0)
            && -(if b < 0 then -b else b) < r < (if b < 0 then -b else b)
  {
    var m := if b < 0 then -b else b;
    var n := if a < 0 then -a else a;
    assert n == m * (n / m) + n % m;
    q := if (a < 0) == (b < 0) then n / m else -(n / m);
    assert q * b == if a < 0 then -(m * (n / m)) else m * (n / m);
  }

  /** The casts: the number in the signed range that is congruent to the word. */
  lemma CastsAreCongruent(x: u64)
    ensures -0x8000_0000_0000_0000 <= Signed64(x) < 0x8000_0000_0000_0000
    ensures Signed64(x) == x || Signed64(x) == x - TWO64
    ensures -TWO31 <= Divisor(x) < TWO31 && (Divisor(x) == x % TWO32 || Divisor(x) == x % TWO32 - TWO32)
  {
  }

  // ---------------------------------------------------------------- the arms

  /** What a round starts from. */
  predicate Starts<V>(o: Ops<V>, pbuf: seq<V>, t: Trace<V>, selector: u64) {
    |t.key| >= KEY_MASK + 40 && |pbuf| == 4 && selector == o.low64(t.acc)
  }

  /** A round ends with this accumulator and these two stores, the first one first, and logs its slots. */
  ghost predicate Ends<V>(t: Trace<V>, u: Trace<V>, selector: u64, acc: V, i: nat, vi: V, j: nat, vj: V)
    requires |t.key| > KEY_MASK && i <= KEY_MASK && j <= KEY_MASK
  {
    && u.acc == acc && u.key == t.key[i := vi][j := vj]
    && u.log == t.log + [Prand(selector), Prandex(selector)]
  }

  lemma Arm0Law<V>(o: Ops<V>, v22: bool, pbuf: seq<V>, t: Trace<V>, selector: u64)
    requires Starts(o, pbuf, t, selector) && Arm(selector) == 0
    ensures var p, x, b, c := Prand(selector), Prandex(selector), pbuf[Pbuf(selector)], pbuf[Other(selector)];
            var acc1 := o.xor(o.clmul(o.xor(t.key[x], c)), t.acc);
            var acc2 := o.xor(o.clmul(o.xor(t.key[p], b)), acc1);
            Ends(t, Next(o, v22, pbuf, t), selector, acc2,
                 p, o.xor(o.mulhrs(acc1, t.key[x]), t.key[x]), x, o.xor(o.mulhrs(acc2, t.key[p]), t.key[p]))
  {
  }

  lemma Arm1Law<V>(o: Ops<V>, v22: bool, pbuf: seq<V>, t: Trace<V>, selector: u64)
    requires Starts(o, pbuf, t, selector) && Arm(selector) == 1
    ensures var p, x, b, c := Prand(selector), Prandex(selector), pbuf[Pbuf(selector)], pbuf[Other(selector)];
            var acc1 := o.xor(o.clmul(b), o.xor(o.clmul(o.xor(t.key[p], b)), t.acc));
            var acc2 := o.xor(o.xor(t.key[x], c), acc1);
            Ends(t, Next(o, v22, pbuf, t), selector, acc2,
                 x, o.xor(o.mulhrs(acc1, t.key[p]), t.key[p]), p, o.xor(o.mulhrs(acc2, t.key[x]), t.key[x]))
  {
  }

  lemma Arm2Law<V>(o: Ops<V>, v22: bool, pbuf: seq<V>, t: Trace<V>, selector: u64)
    requires Starts(o, pbuf, t, selector) && Arm(selector) == 2
    ensures var p, x, b, c := Prand(selector), Prandex(selector), pbuf[Pbuf(selector)], pbuf[Other(selector)];
            var acc1 := o.xor(o.xor(t.key[x], b), t.acc);
            var acc2 := o.xor(o.clmul(c), o.xor(o.clmul(o.xor(t.key[p], c)), acc1));
            Ends(t, Next(o, v22, pbuf, t), selector, acc2,
                 p, o.xor(o.mulhrs(acc1, t.key[x]), t.key[x]), x, o.xor(o.mulhrs(acc2, t.key[p]), t.key[p]))
  {
  }

  /** The dividing arm: the remainder of the low half by the selector's low word as a signed number, and
      what follows depends on the dividend's parity. */
  lemma Arm3Law<V>(o: Ops<V>, v22: bool, pbuf: seq<V>, t: Trace<V>, selector: u64)
    requires Starts(o, pbuf, t, selector) && Arm(selector) == 3
    ensures Divisor(selector) != 0
    ensures var p, x, b, c := Prand(selector), Prandex(selector), pbuf[Pbuf(selector)], pbuf[Other(selector)];
            var acc1 := o.xor(o.xor(t.key[p], c), t.acc);
            var dividend := o.low64(acc1);
            var acc2 := o.xor(o.fromInt32(Rem(Signed64(dividend), Divisor(selector))), acc1);
            var stirred := o.xor(o.mulhrs(acc2, t.key[p]), t.key[p]);
            if dividend % 2 == 1 then
              var acc3 := o.xor(o.clmul(b), o.xor(o.clmul(o.xor(t.key[x], b)), acc2));
              Ends(t, Next(o, v22, pbuf, t), selector, acc3,
                   x, stirred, p, o.xor(o.mulhrs(acc3, t.key[x]), t.key[x]))
            else
              Ends(t, Next(o, v22, pbuf, t), selector, if v22 then o.xor(b, acc2) else acc2,
                   x, stirred, p, t.key[x])
  {
    DivisorIsNonzero(selector);
  }

  /** Two AES rounds on each of two blocks, with four keys, and the two interleavings. */
  function AesMixed<V>(o: Ops<V>, k0: V, k1: V, k2: V, k3: V, s: (V, V)): (V, V) {
    var (x, y) := (o.aesenc(o.aesenc(s.0, k0), k2), o.aesenc(o.aesenc(s.1, k1), k3));
    (o.unpacklo(x, y), o.unpackhi(x, y))
  }

  lemma Arm4Law<V>(o: Ops<V>, v22: bool, pbuf: seq<V>, t: Trace<V>, selector: u64)
    requires Starts(o, pbuf, t, selector) && Arm(selector) == 4
    ensures var p, x, k := Prand(selector), Prandex(selector), t.key;
            var s1 := AesMixed(o, k[p], k[p + 1], k[p + 2], k[p + 3], (pbuf[Other(selector)], pbuf[Pbuf(selector)]));
            var s2 := AesMixed(o, k[p + 4], k[p + 5], k[p + 6], k[p + 7], s1);
            var s3 := AesMixed(o, k[p + 8], k[p + 9], k[p + 10], k[p + 11], s2);
            var acc1 := o.xor(s3.1, o.xor(s3.0, t.acc));
            Ends(t, Next(o, v22, pbuf, t), selector, acc1, x, o.xor(k[p], o.mulhrs(acc1, k[p])), p, k[x])
  {
  }

  lemma Arm7Law<V>(o: Ops<V>, v22: bool, pbuf: seq<V>, t: Trace<V>, selector: u64)
    requires Starts(o, pbuf, t, selector) && Arm(selector) == 7
    ensures var p, x, b, c := Prand(selector), Prandex(selector), pbuf[Pbuf(selector)], pbuf[Other(selector)];
            var acc1 := o.xor(o.clmul(o.xor(b, t.key[x])), t.acc);
            var acc2 := if v22 then o.xor(c, o.xor(t.key[p], acc1)) else o.xor(t.key[p], acc1);
            Ends(t, Next(o, v22, pbuf, t), selector, acc2,
                 p, o.xor(o.mulhrs(acc1, t.key[x]), t.key[x]), x, o.xor(o.mulhrs(acc2, t.key[p]), t.key[p]))
  {
  }

  // ---------------------------------------------------------------- the looping arms

  /** The number of keys used up by AES before each iteration: four for each coin that was 0. */
  ghost predicate KeysUsed(selector: u64, n: nat, used: seq<nat>) {
    && |used| == n + 1 && used[0] == 0
    && forall i :: 0 <= i < n ==> used[i + 1] == used[i] + (if Coin(selector, n - i) then 0 else 4)
  }

  lemma {:induction false} KeysFit(selector: u64, n: nat, used: seq<nat>, i: nat)
    requires KeysUsed(selector, n, used) && i <= n
    ensures used[i] <= 4 * i
  {
    if i > 0 { KeysFit(selector, n, used, i - 1); }
  }

  /** One iteration of arm 5: iteration i of n + 1 reads slot p + i, and the slots behind it for AES. */
  ghost predicate Mixes<V>(o: Ops<V>, key: seq<V>, selector: u64, b: V, c: V, n: nat, p: nat, i: nat, used: nat,
                           before: V, after: V)
    requires i <= n && p + i + used + 4 < |key|
  {
    if Coin(selector, n - i) then
      after == o.xor(o.clmul(o.xor(key[p + i], if (n - i) % 2 == 1 then b else c)), before)
    else
      var k := p + i + 1 + used;
      var s := AesMixed(o, key[k], key[k + 1], key[k + 2], key[k + 3],
                        (key[p + i], if (n - i) % 2 == 1 then c else b));
      after == o.xor(s.1, o.xor(s.0, before))
  }

  /** The accumulators of the iterations, one after the other. */
  ghost predicate Mixed<V>(o: Ops<V>, key: seq<V>, selector: u64, b: V, c: V, n: nat, p: nat, used: seq<nat>,
                           accs: seq<V>)
    requires KeysUsed(selector, n, used) && p + 5 * n + 4 < |key|
  {
    && |accs| == n + 2
    && forall i :: 0 <= i <= n ==>
         p + i + used[i] + 4 < |key| && Mixes(o, key, selector, b, c, n, p, i, used[i], accs[i], accs[i + 1])
  }

  lemma {:induction false} MixedIsMonkins<V>(o: Ops<V>, key: seq<V>, selector: u64, b: V, c: V, n: nat, p: nat,
                                             used: seq<nat>, accs: seq<V>, i: nat, rounds: nat, rc: nat,
                                             u: nat, acc: V)
    requires KeysUsed(selector, n, used) && p + 5 * n + 4 < |key| && Mixed(o, key, selector, b, c, n, p, used, accs)
    requires i + rounds == n && rc == p + i && rc + u + 5 * rounds + 4 < |key| && u == used[i] && acc == accs[i]
    ensures Monkins(o, key, selector, b, c, rounds, rc, u, acc) == accs[n + 1]
    decreases rounds
  {
    var u', rc', next := if Coin(selector, rounds) then u else u + 4, rc + 1, accs[i + 1];
    IsMixed(o, key, selector, b, c, n, p, used, accs, i, u, acc, next);
    MixesIsStep(o, key, selector, b, c, n, p, i, u, acc, next, rounds, rc);
    if rounds > 0 {
      UsedNext(selector, n, used, i, rounds);
      MixedIsMonkins(o, key, selector, b, c, n, p, used, accs, i + 1, rounds - 1, rc', u', next);
    }
    MonkinsEnds(o, key, selector, b, c, rounds, rc, u, acc, rc + 1 + u, rc', u', next, accs[n + 1]);
  }

  lemma IsMixed<V>(o: Ops<V>, key: seq<V>, selector: u64, b: V, c: V, n: nat, p: nat, used: seq<nat>,
                   accs: seq<V>, i: nat, u: nat, acc: V, next: V)
    requires KeysUsed(selector, n, used) && p + 5 * n + 4 < |key| && Mixed(o, key, selector, b, c, n, p, used, accs)
    requires i <= n && u == used[i] && acc == accs[i] && next == accs[i + 1]
    ensures p + i + u + 4 < |key| && Mixes(o, key, selector, b, c, n, p, i, u, acc, next)
  {
  }

  lemma UsedNext(selector: u64, n: nat, used: seq<nat>, i: nat, rounds: nat)
    requires KeysUsed(selector, n, used) && i + rounds == n && rounds > 0
    ensures used[i + 1] == used[i] + (if Coin(selector, rounds) then 0 else 4)
  {
    assert n - i == rounds;
  }

  lemma MixesIsStep<V>(o: Ops<V>, key: seq<V>, selector: u64, b: V, c: V, n: nat, p: nat, i: nat, used: nat,
                       before: V, after: V, rounds: nat, rc: nat)
    requires i + rounds == n && rc == p + i && p + i + used + 4 < |key|
    requires Mixes(o, key, selector, b, c, n, p, i, used, before, after)
    ensures after == MonkinsStep(o, key, selector, b, c, rounds, rc, rc + 1 + used, before)
  {
  }

  lemma MonkinsEnds<V>(o: Ops<V>, key: seq<V>, selector: u64, b: V, c: V, rounds: nat, rc: nat, aes: nat, acc: V,
                       i: nat, rc': nat, aes': nat, next: V, last: V)
    requires rc + aes + 5 * rounds + 4 < |key| && i == rc + 1 + aes
    requires rc' == rc + 1 && aes' == if Coin(selector, rounds) then aes else aes + 4
    requires next == MonkinsStep(o, key, selector, b, c, rounds, rc, i, acc)
    requires if rounds == 0 then next == last
             else Monkins(o, key, selector, b, c, rounds - 1, rc', aes', next) == last
    ensures Monkins(o, key, selector, b, c, rounds, rc, aes, acc) == last
  {
    var next1 := MonkinsNext(o, key, selector, b, c, rounds, rc, aes, acc, i, rc', aes');
  }

  /** Arm 5: as many iterations as the selector's top bits say and one more; whatever accumulators they
      lead through, the last one is the round's. */
  lemma Arm5Law<V>(o: Ops<V>, v22: bool, pbuf: seq<V>, t: Trace<V>, selector: u64, used: seq<nat>, accs: seq<V>)
    requires Starts(o, pbuf, t, selector) && Arm(selector) == 5 && KeysUsed(selector, Iterations(selector), used)
    requires Mixed(o, t.key, selector, pbuf[Pbuf(selector)], pbuf[Other(selector)], Iterations(selector),
                   Prand(selector), used, accs)
    requires accs[0] == t.acc
    ensures var p, x, last := Prand(selector), Prandex(selector), accs[Iterations(selector) + 1];
            Ends(t, Next(o, v22, pbuf, t), selector, last,
                 x, o.xor(t.key[p], o.mulhrs(last, t.key[p])), p, t.key[x])
  {
    MixedIsMonkins(o, t.key, selector, pbuf[Pbuf(selector)], pbuf[Other(selector)], Iterations(selector),
                   Prand(selector), used, accs, 0, Iterations(selector), Prand(selector), 0, t.acc);
  }

  /** One iteration of arm 6, which also leaves a value behind: in the older variant the key slot, in the
      newer one the sum or the product it was made into. */
  ghost predicate Divides<V>(o: Ops<V>, v22: bool, key: seq<V>, selector: u64, b: V, c: V, n: nat, p: nat, i: nat,
                             before: V, after: V, left: V)
    requires i <= n && p + i < |key| && Arm(selector) == 6
  {
    DivisorIsNonzero(selector);
    if Coin(selector, n - i) then
      var sum := o.xor(key[p + i], if (n - i) % 2 == 1 then b else c);
      && after == o.xor(o.fromInt32(Rem(Signed64(o.low64(sum)), Divisor(selector))), before)
      && left == if v22 then sum else key[p + i]
    else
      var product := o.clmul(o.xor(key[p + i], if (n - i) % 2 == 1 then c else b));
      && after == o.xor(o.mulhrs(before, product), before)
      && left == if v22 then product else key[p + i]
  }

  ghost predicate Divided<V>(o: Ops<V>, v22: bool, key: seq<V>, selector: u64, b: V, c: V, n: nat, p: nat,
                             accs: seq<V>, lefts: seq<V>)
    requires p + n < |key| && Arm(selector) == 6
  {
    && |accs| == n + 2 && |lefts| == n + 1
    && forall i :: 0 <= i <= n ==> Divides(o, v22, key, selector, b, c, n, p, i, accs[i], accs[i + 1], lefts[i])
  }

  lemma {:induction false} DividedIsModulo<V>(o: Ops<V>, v22: bool, key: seq<V>, selector: u64, b: V, c: V, n: nat,
                                              p: nat, accs: seq<V>, lefts: seq<V>, i: nat, rounds: nat, rc: nat)
    requires p + n < |key| && Arm(selector) == 6 && Divided(o, v22, key, selector, b, c, n, p, accs, lefts)
    requires i + rounds == n && rc == p + i
    ensures Modulo(o, v22, key, selector, b, c, rounds, rc, accs[i]) == (accs[n + 1], lefts[n])
    decreases rounds
  {
    assert Divides(o, v22, key, selector, b, c, n, p, i, accs[i], accs[i + 1], lefts[i]);
    if rounds > 0 {
      DividedIsModulo(o, v22, key, selector, b, c, n, p, accs, lefts, i + 1, rounds - 1, rc + 1);
    }
  }

  /** Arm 6; the two variants store what is left and the sum with the second slot in opposite places. */
  lemma Arm6Law<V>(o: Ops<V>, v22: bool, pbuf: seq<V>, t: Trace<V>, selector: u64, accs: seq<V>, lefts: seq<V>)
    requires Starts(o, pbuf, t, selector) && Arm(selector) == 6
    requires Divided(o, v22, t.key, selector, pbuf[Pbuf(selector)], pbuf[Other(selector)], Iterations(selector),
                     Prand(selector), accs, lefts)
    requires accs[0] == t.acc
    ensures var n, p, x := Iterations(selector), Prand(selector), Prandex(selector);
            var last, left := accs[n + 1], lefts[n];
            if v22 then Ends(t, Next(o, v22, pbuf, t), selector, last, x, left, p, o.xor(t.key[x], last))
            else Ends(t, Next(o, v22, pbuf, t), selector, last, x, o.xor(t.key[x], last), p, left)
  {
    DividedIsModulo(o, v22, t.key, selector, pbuf[Pbuf(selector)], pbuf[Other(selector)], Iterations(selector),
                    Prand(selector), accs, lefts, 0, Iterations(selector), Prand(selector));
  }
}
