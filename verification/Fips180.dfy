/** FIPS 180-4 from its text: the logical functions by bits, the schedule and the rounds with their
    literal rotations and indices, the compression as a relation, and the digest of a message.  The
    hash functions of Sha2Hashes are these. */
module Fips180 {
  import opened MachineWords
  import opened RootConstants
  import opened Sha1Rounds
  import opened Sha2Bytes
  import opened Sha2Hashes
  import opened Sha2Rounds
  import opened Sha2Schedule
  import opened Sha2Stream

  // ---------------------------------------------------------------- logical functions

  /** Ch has y's bits where x has ones and z's where it has zeros. */
  lemma ChooseByBit32(x: bv32, y: bv32, z: bv32)
    ensures Choose32(x, y, z) & x == y & x && Choose32(x, y, z) & !x == z & !x
  {
  }

  /** Maj has the bits of x and y where these agree and those of z where they do not. */
  lemma MajorityByBit32(x: bv32, y: bv32, z: bv32)
    ensures Majority32(x, y, z) & !(x ^ y) == x & y
    ensures Majority32(x, y, z) & (x ^ y) == z & (x ^ y)
  {
  }

  /** Ch has y's bits where x has ones and z's where it has zeros. */
  lemma ChooseByBit64(x: bv64, y: bv64, z: bv64)
    ensures Choose64(x, y, z) & x == y & x && Choose64(x, y, z) & !x == z & !x
  {
  }

  /** Maj has the bits of x and y where these agree and those of z where they do not. */
  lemma MajorityByBit64(x: bv64, y: bv64, z: bv64)
    ensures Majority64(x, y, z) & !(x ^ y) == x & y
    ensures Majority64(x, y, z) & (x ^ y) == z & (x ^ y)
  {
  }

  /** Parity has y XOR z where x has zeros and its complement where x has ones. */
  lemma ParityByBit(x: bv32, y: bv32, z: bv32)
    ensures Parity32(x, y, z) & !x == (y ^ z) & !x && Parity32(x, y, z) & x == !(y ^ z) & x
  {
  }

  /** The functions of SHA-256 (section 4.1.2). */
  lemma UpperSigmas256(x: int)
    ensures Sha256Suite().bigSigma0(x) == (W32(x).RotateRight(2) ^ W32(x).RotateRight(13) ^ W32(x).RotateRight(22)) as int
    ensures Sha256Suite().bigSigma1(x) == (W32(x).RotateRight(6) ^ W32(x).RotateRight(11) ^ W32(x).RotateRight(25)) as int
  {
    SigmasOfFips256(W32(x));
  }

  lemma LowerSigmas256(x: int)
    ensures Sha256Suite().sigma0(x) == (W32(x).RotateRight(7) ^ W32(x).RotateRight(18) ^ (W32(x) >> 3)) as int
    ensures Sha256Suite().sigma1(x) == (W32(x).RotateRight(17) ^ W32(x).RotateRight(19) ^ (W32(x) >> 10)) as int
  {
    SigmasOfFips256(W32(x));
  }

  lemma Logic256(x: int, y: int, z: int)
    ensures Sha256Suite().ch(x, y, z) == Choose32(W32(x), W32(y), W32(z)) as int
    ensures Sha256Suite().maj(x, y, z) == Majority32(W32(x), W32(y), W32(z)) as int
  {
  }

  lemma Constants256(t: nat)
    requires t < 64
    ensures Sha256Suite().modulus == TWO32 && CubeFraction(Prime(t), Sha256Suite().k(t), TWO32)
  {
    RoundConstants256(t);
  }

  /** The functions of SHA-512 (section 4.1.3). */
  lemma UpperSigmas512(x: int)
    ensures Sha512Suite().bigSigma0(x) == (W64(x).RotateRight(28) ^ W64(x).RotateRight(34) ^ W64(x).RotateRight(39)) as int
    ensures Sha512Suite().bigSigma1(x) == (W64(x).RotateRight(14) ^ W64(x).RotateRight(18) ^ W64(x).RotateRight(41)) as int
  {
    SigmasOfFips512(W64(x));
  }

  lemma LowerSigmas512(x: int)
    ensures Sha512Suite().sigma0(x) == (W64(x).RotateRight(1) ^ W64(x).RotateRight(8) ^ (W64(x) >> 7)) as int
    ensures Sha512Suite().sigma1(x) == (W64(x).RotateRight(19) ^ W64(x).RotateRight(61) ^ (W64(x) >> 6)) as int
  {
    SigmasOfFips512(W64(x));
  }

  lemma Logic512(x: int, y: int, z: int)
    ensures Sha512Suite().ch(x, y, z) == Choose64(W64(x), W64(y), W64(z)) as int
    ensures Sha512Suite().maj(x, y, z) == Majority64(W64(x), W64(y), W64(z)) as int
  {
  }

  lemma Constants512(t: nat)
    requires t < 80
    ensures Sha512Suite().modulus == TWO64 && CubeFraction(Prime(t), Sha512Suite().k(t), TWO64)
  {
    RoundConstants512(t);
  }

  /** The functions of SHA-1 (section 4.1.1) and what else its rounds are made of. */
  lemma FunctionsOf1(t: nat, x: int, y: int, z: int)
    requires t < 80
    ensures t < 20 ==> Sha1Suite().f(t, x, y, z) == Choose32(W32(x), W32(y), W32(z)) as int
    ensures 40 <= t < 60 ==> Sha1Suite().f(t, x, y, z) == Majority32(W32(x), W32(y), W32(z)) as int
    ensures 20 <= t < 40 || 60 <= t ==> Sha1Suite().f(t, x, y, z) == Parity32(W32(x), W32(y), W32(z)) as int
  {
  }

  lemma ConstantsOf1(t: nat)
    requires t < 80
    ensures var n, k := if t < 20 then 2 else if t < 40 then 3 else if t < 60 then 5 else 10, Sha1Suite().k(t);
            k * k <= n * 0x1000_0000_0000_0000 < (k + 1) * (k + 1)
  {
    RoundConstants1(t);
  }

  lemma RotationsOf1(x: int, y: int, z: int, w: int)
    ensures Sha1Suite().mix(x, y, z, w) == (W32(x) ^ W32(y) ^ W32(z) ^ W32(w)).RotateLeft(1) as int
    ensures Sha1Suite().rotl5(x) == W32(x).RotateLeft(5) as int
    ensures Sha1Suite().rotl30(x) == W32(x).RotateLeft(30) as int
  {
    RotlsOfFips(W32(x));
    RotlsOfFips(W32(x) ^ W32(y) ^ W32(z) ^ W32(w));
  }

  // ---------------------------------------------------------------- one block, for any of the three

  lemma {:induction false} ScheduleAt<R>(alg: Alg<R>, block: seq<int>, n: nat, t: nat)
    requires WellFormed(alg) && |block| == 16 && t < n
    ensures var ws := Schedule(alg, block, n); ws[t] == if t < 16 then block[t] else NextWord(alg, ws[..t])
  {
    var ws, init := Schedule(alg, block, n), Schedule(alg, block, n - 1);
    assert ws[..n - 1] == init;
    if t < n - 1 {
      ScheduleAt(alg, block, n - 1, t);
      assert ws[..t] == init[..t];
    }
  }

  /** The rounds lead from the state to these values, one after the other. */
  ghost predicate Stepped<R>(step: (nat, int, R, R) -> bool, state: R, ws: seq<int>, rs: seq<R>) {
    && |rs| == |ws| + 1 && rs[0] == state
    && forall t :: 0 <= t < |ws| ==> step(t, ws[t], rs[t], rs[t + 1])
  }

  /** The relation of one round is the round of the algorithm. */
  ghost predicate Steps<R(!new)>(alg: Alg<R>, step: (nat, int, R, R) -> bool) {
    forall t: nat, w: int, r: R, next: R :: step(t, w, r, next) <==> next == alg.round(r, t, w)
  }

  lemma {:induction false} SteppedIsRounds<R(!new)>(alg: Alg<R>, step: (nat, int, R, R) -> bool, state: R,
                                                    ws: seq<int>, rs: seq<R>, n: nat)
    requires Steps(alg, step) && Stepped(step, state, ws, rs) && n <= |ws|
    ensures rs[n] == Rounds(alg, state, ws[..n])
  {
    if n > 0 {
      SteppedIsRounds(alg, step, state, ws, rs, n - 1);
      assert step(n - 1, ws[n - 1], rs[n - 1], rs[n]);
      OneMoreRound(alg, state, ws[..n - 1], ws[n - 1]);
      assert ws[..n - 1] + [ws[n - 1]] == ws[..n];
    }
  }

  function AllRounds<R>(alg: Alg<R>, state: R, ws: seq<int>): (rs: seq<R>)
    ensures |rs| == |ws| + 1
    ensures forall n :: 0 <= n <= |ws| ==> rs[n] == Rounds(alg, state, ws[..n])
  {
    seq(|ws| + 1, n requires 0 <= n <= |ws| => Rounds(alg, state, ws[..n]))
  }

  lemma RoundsAreStepped<R(!new)>(alg: Alg<R>, step: (nat, int, R, R) -> bool, state: R, ws: seq<int>)
    requires Steps(alg, step)
    ensures Stepped(step, state, ws, AllRounds(alg, state, ws))
  {
    var rs := AllRounds(alg, state, ws);
    forall t | 0 <= t < |ws| ensures step(t, ws[t], rs[t], rs[t + 1]) {
      OneMoreRound(alg, state, ws[..t], ws[t]);
      assert ws[..t] + [ws[t]] == ws[..t + 1];
    }
  }

  lemma LastOfAll<R>(alg: Alg<R>, state: R, ws: seq<int>, rs: seq<R>, n: nat)
    requires rs == AllRounds(alg, state, ws) && n == |ws|
    ensures |rs| == n + 1 && rs[n] == Rounds(alg, state, ws)
  {
    assert ws[..n] == ws;
  }

  // ---------------------------------------------------------------- SHA-256 and SHA-512

  /** The message schedule of sections 6.2.2 and 6.4.2: the block, then the recurrence. */
  ghost predicate Expanded(s: Suite, rounds: nat, block: seq<int>, ws: seq<int>)
    requires s.modulus > 0
  {
    && |block| == 16 && |ws| == rounds && (forall t :: 0 <= t < 16 && t < rounds ==> ws[t] == block[t])
    && forall t :: 16 <= t < rounds ==>
         ws[t] == (s.sigma1(ws[t - 2]) + ws[t - 7] + s.sigma0(ws[t - 15]) + ws[t - 16]) % s.modulus
  }

  /** One round with its word. */
  predicate Step(s: Suite, t: nat, w: int, r: Regs, next: Regs)
    requires s.modulus > 0
  {
    var t1 := (r.h + s.bigSigma1(r.e) + s.ch(r.e, r.f, r.g) + s.k(t) + w) % s.modulus;
    var t2 := (s.bigSigma0(r.a) + s.maj(r.a, r.b, r.c)) % s.modulus;
    && next.h == r.g && next.g == r.f && next.f == r.e && next.e == (r.d + t1) % s.modulus
    && next.d == r.c && next.c == r.b && next.b == r.a && next.a == (t1 + t2) % s.modulus
  }

  predicate Added(m: nat, x: Regs, y: Regs, sum: Regs)
    requires m > 0
  {
    && sum.a == (x.a + y.a) % m && sum.b == (x.b + y.b) % m && sum.c == (x.c + y.c) % m
    && sum.d == (x.d + y.d) % m && sum.e == (x.e + y.e) % m && sum.f == (x.f + y.f) % m
    && sum.g == (x.g + y.g) % m && sum.h == (x.h + y.h) % m
  }

  function StepOf(s: Suite): (nat, int, Regs, Regs) -> bool
    requires s.modulus > 0
  {
    (t: nat, w, r, next) => Step(s, t, w, r, next)
  }

  /** The hash value `next` follows from `state` with the block. */
  ghost predicate Follows(s: Suite, rounds: nat, state: Regs, block: seq<int>, next: Regs)
    requires s.modulus > 0
  {
    exists ws, rs ::
      && Expanded(s, rounds, block, ws) && Stepped(StepOf(s), state, ws, rs)
      && Added(s.modulus, state, rs[rounds], next)
  }

  lemma NextIsSum(s: Suite, rounds: nat, ws: seq<int>, t: nat)
    requires s.modulus > 0 && rounds >= 16 && 16 <= t < |ws|
    ensures NextWord(SuiteAlg(s, rounds), ws[..t])
         == (s.sigma1(ws[t - 2]) + ws[t - 7] + s.sigma0(ws[t - 15]) + ws[t - 16]) % s.modulus
  {
  }

  lemma ExpandedIsSchedule(s: Suite, rounds: nat, block: seq<int>, ws: seq<int>)
    requires s.modulus > 0 && rounds >= 16 && Expanded(s, rounds, block, ws)
    ensures ws == Schedule(SuiteAlg(s, rounds), block, rounds)
  {
    ExpandedIsScheduled(s, rounds, block, ws);
    ScheduledIsSchedule(SuiteAlg(s, rounds), block, ws);
  }

  lemma ExpandedIsScheduled(s: Suite, rounds: nat, block: seq<int>, ws: seq<int>)
    requires s.modulus > 0 && rounds >= 16 && Expanded(s, rounds, block, ws)
    ensures Scheduled(SuiteAlg(s, rounds), block, ws)
  {
    forall t: nat | t < |ws| ensures IsNext(SuiteAlg(s, rounds), block, ws, t) {
      WordIsNext(s, rounds, block, ws, t);
    }
    AllAreNext(SuiteAlg(s, rounds), block, ws);
  }

  predicate IsNext<R>(alg: Alg<R>, block: seq<int>, ws: seq<int>, t: nat)
    requires WellFormed(alg) && |block| == 16 && t < |ws|
  {
    ws[t] == if t < 16 then block[t] else NextWord(alg, ws[..t])
  }

  lemma AllAreNext<R>(alg: Alg<R>, block: seq<int>, ws: seq<int>)
    requires WellFormed(alg) && |block| == 16
    requires forall t: nat :: t < |ws| ==> IsNext(alg, block, ws, t)
    ensures Scheduled(alg, block, ws)
  {
    forall t | 0 <= t < |ws| ensures ws[t] == if t < 16 then block[t] else NextWord(alg, ws[..t]) {
      assert IsNext(alg, block, ws, t);
    }
  }

  lemma WordIsNext(s: Suite, rounds: nat, block: seq<int>, ws: seq<int>, t: nat)
    requires s.modulus > 0 && rounds >= 16 && Expanded(s, rounds, block, ws) && t < rounds
    ensures IsNext(SuiteAlg(s, rounds), block, ws, t)
  {
    if t >= 16 {
      NextIsSum(s, rounds, ws, t);
    } else {
      assert ws[t] == block[t];
    }
  }

  lemma ScheduleIsExpanded(s: Suite, rounds: nat, block: seq<int>, ws: seq<int>)
    requires s.modulus > 0 && rounds >= 16 && |block| == 16
    requires ws == Schedule(SuiteAlg(s, rounds), block, rounds)
    ensures Expanded(s, rounds, block, ws)
  {
    forall t | 0 <= t < rounds
      ensures t < 16 ==> ws[t] == block[t]
      ensures t >= 16 ==>
                ws[t] == (s.sigma1(ws[t - 2]) + ws[t - 7] + s.sigma0(ws[t - 15]) + ws[t - 16]) % s.modulus
    {
      ScheduleAt(SuiteAlg(s, rounds), block, rounds, t);
      if t >= 16 { NextIsSum(s, rounds, ws, t); }
    }
  }

  lemma StepIsRound(s: Suite, rounds: nat)
    requires s.modulus > 0 && rounds >= 16
    ensures Steps(SuiteAlg(s, rounds), StepOf(s))
  {
    forall t: nat, w: int, r: Regs, next: Regs
      ensures StepOf(s)(t, w, r, next) <==> next == SuiteAlg(s, rounds).round(r, t, w)
    {
      StepIsOne(s, t, w, r, next);
    }
  }

  lemma StepIsOne(s: Suite, t: nat, w: int, r: Regs, next: Regs)
    requires s.modulus > 0
    ensures Step(s, t, w, r, next) <==> next == Round(s, r, t, w)
  {
  }

  lemma AddedIsSum(s: Suite, x: Regs, y: Regs, sum: Regs)
    requires s.modulus > 0
    ensures Added(s.modulus, x, y, sum) <==> sum == AddRegs(s, x, y)
  {
  }

  /** The compression is the relation of the standard, and nothing else follows. */
  lemma FollowsIffCompress(s: Suite, rounds: nat, state: Regs, block: seq<int>, next: Regs)
    requires s.modulus > 0 && rounds >= 16 && |block| == 16
    ensures Follows(s, rounds, state, block, next) <==> next == Compress(SuiteAlg(s, rounds), state, block)
  {
    if Follows(s, rounds, state, block, next) {
      var ws, rs :|
        && Expanded(s, rounds, block, ws) && Stepped(StepOf(s), state, ws, rs)
        && Added(s.modulus, state, rs[rounds], next);
      OnlyCompress(s, rounds, state, block, next, ws, rs);
    }
    if next == Compress(SuiteAlg(s, rounds), state, block) {
      CompressFollows(s, rounds, state, block, next);
    }
  }

  lemma OnlyCompress(s: Suite, rounds: nat, state: Regs, block: seq<int>, next: Regs, ws: seq<int>, rs: seq<Regs>)
    requires s.modulus > 0 && rounds >= 16 && |block| == 16
    requires Expanded(s, rounds, block, ws) && Stepped(StepOf(s), state, ws, rs)
    requires Added(s.modulus, state, rs[rounds], next)
    ensures next == Compress(SuiteAlg(s, rounds), state, block)
  {
    ExpandedIsSchedule(s, rounds, block, ws);
    StepIsRound(s, rounds);
    SteppedIsRounds(SuiteAlg(s, rounds), StepOf(s), state, ws, rs, rounds);
    assert ws[..rounds] == ws;
    AddedIsSum(s, state, rs[rounds], next);
  }

  lemma CompressFollows(s: Suite, rounds: nat, state: Regs, block: seq<int>, next: Regs)
    requires s.modulus > 0 && rounds >= 16 && |block| == 16
    requires next == Compress(SuiteAlg(s, rounds), state, block)
    ensures Follows(s, rounds, state, block, next)
  {
    var ws := Schedule(SuiteAlg(s, rounds), block, rounds);
    var rs := AllRounds(SuiteAlg(s, rounds), state, ws);
    ScheduleIsExpanded(s, rounds, block, ws);
    StepIsRound(s, rounds);
    RoundsAreStepped(SuiteAlg(s, rounds), StepOf(s), state, ws);
    LastOfAll(SuiteAlg(s, rounds), state, ws, rs, rounds);
    CompressAdds(s, rounds, state, block, next, ws, rs[rounds]);
    FollowsBy(s, rounds, state, block, next, ws, rs);
  }

  lemma CompressAdds(s: Suite, rounds: nat, state: Regs, block: seq<int>, next: Regs, ws: seq<int>, last: Regs)
    requires s.modulus > 0 && rounds >= 16 && |block| == 16
    requires ws == Schedule(SuiteAlg(s, rounds), block, rounds) && last == Rounds(SuiteAlg(s, rounds), state, ws)
    requires next == Compress(SuiteAlg(s, rounds), state, block)
    ensures Added(s.modulus, state, last, next)
  {
    AddedIsSum(s, state, last, next);
  }

  lemma FollowsBy(s: Suite, rounds: nat, state: Regs, block: seq<int>, next: Regs, ws: seq<int>, rs: seq<Regs>)
    requires s.modulus > 0
    requires Expanded(s, rounds, block, ws) && Stepped(StepOf(s), state, ws, rs)
    requires Added(s.modulus, state, rs[rounds], next)
    ensures Follows(s, rounds, state, block, next)
  {
  }

  // ---------------------------------------------------------------- SHA-1

  /** The message schedule of section 6.1.2: the block, then the recurrence. */
  ghost predicate Expanded1(s: Suite5, rounds: nat, block: seq<int>, ws: seq<int>)
  {
    && |block| == 16 && |ws| == rounds && (forall t :: 0 <= t < 16 && t < rounds ==> ws[t] == block[t])
    && forall t :: 16 <= t < rounds ==>
         ws[t] == s.mix(ws[t - 3], ws[t - 8], ws[t - 14], ws[t - 16])
  }

  /** One round with its word. */
  predicate Step1(s: Suite5, t: nat, w: int, r: Regs5, next: Regs5)
  {
    && next.a == (s.rotl5(r.a) + s.f(t, r.b, r.c, r.d) + r.e + s.k(t) + w) % TWO32
    && next.b == r.a && next.c == s.rotl30(r.b) && next.d == r.c && next.e == r.d
  }

  predicate Added1(x: Regs5, y: Regs5, sum: Regs5) {
    && sum.a == (x.a + y.a) % TWO32 && sum.b == (x.b + y.b) % TWO32 && sum.c == (x.c + y.c) % TWO32
    && sum.d == (x.d + y.d) % TWO32 && sum.e == (x.e + y.e) % TWO32
  }

  function StepOf1(s: Suite5): (nat, int, Regs5, Regs5) -> bool
  {
    (t: nat, w, r, next) => Step1(s, t, w, r, next)
  }

  /** The hash value `next` follows from `state` with the block. */
  ghost predicate Follows1(s: Suite5, rounds: nat, state: Regs5, block: seq<int>, next: Regs5)
  {
    exists ws, rs ::
      && Expanded1(s, rounds, block, ws) && Stepped(StepOf1(s), state, ws, rs)
      && Added1(state, rs[rounds], next)
  }

  lemma NextIsSum1(s: Suite5, rounds: nat, ws: seq<int>, t: nat)
    requires rounds >= 16 && 16 <= t < |ws|
    ensures NextWord(Suite5Alg(s, rounds), ws[..t])
         == s.mix(ws[t - 3], ws[t - 8], ws[t - 14], ws[t - 16])
  {
  }

  lemma ExpandedIsSchedule1(s: Suite5, rounds: nat, block: seq<int>, ws: seq<int>)
    requires rounds >= 16 && Expanded1(s, rounds, block, ws)
    ensures ws == Schedule(Suite5Alg(s, rounds), block, rounds)
  {
    ExpandedIsScheduled1(s, rounds, block, ws);
    ScheduledIsSchedule(Suite5Alg(s, rounds), block, ws);
  }

  lemma ExpandedIsScheduled1(s: Suite5, rounds: nat, block: seq<int>, ws: seq<int>)
    requires rounds >= 16 && Expanded1(s, rounds, block, ws)
    ensures Scheduled(Suite5Alg(s, rounds), block, ws)
  {
    forall t | 0 <= t < |ws|
      ensures ws[t] == if t < 16 then block[t] else NextWord(Suite5Alg(s, rounds), ws[..t])
    {
      WordIsNext1(s, rounds, block, ws, t);
    }
  }

  lemma WordIsNext1(s: Suite5, rounds: nat, block: seq<int>, ws: seq<int>, t: nat)
    requires rounds >= 16 && Expanded1(s, rounds, block, ws) && t < rounds
    ensures ws[t] == if t < 16 then block[t] else NextWord(Suite5Alg(s, rounds), ws[..t])
  {
    if t >= 16 {
      NextIsSum1(s, rounds, ws, t);
    } else {
      assert ws[t] == block[t];
    }
  }

  lemma ScheduleIsExpanded1(s: Suite5, rounds: nat, block: seq<int>, ws: seq<int>)
    requires rounds >= 16 && |block| == 16
    requires ws == Schedule(Suite5Alg(s, rounds), block, rounds)
    ensures Expanded1(s, rounds, block, ws)
  {
    forall t | 0 <= t < rounds
      ensures t < 16 ==> ws[t] == block[t]
      ensures t >= 16 ==>
                ws[t] == s.mix(ws[t - 3], ws[t - 8], ws[t - 14], ws[t - 16])
    {
      ScheduleAt(Suite5Alg(s, rounds), block, rounds, t);
      if t >= 16 { NextIsSum1(s, rounds, ws, t); }
    }
  }

  lemma StepIsRound1(s: Suite5, rounds: nat)
    requires rounds >= 16
    ensures Steps(Suite5Alg(s, rounds), StepOf1(s))
  {
    forall t: nat, w: int, r: Regs5, next: Regs5
      ensures StepOf1(s)(t, w, r, next) <==> next == Suite5Alg(s, rounds).round(r, t, w)
    {
      StepIsOne1(s, t, w, r, next);
    }
  }

  lemma StepIsOne1(s: Suite5, t: nat, w: int, r: Regs5, next: Regs5)
    ensures Step1(s, t, w, r, next) <==> next == Round1(s, r, t, w)
  {
  }

  lemma AddedIsSum1(x: Regs5, y: Regs5, sum: Regs5)
    ensures Added1(x, y, sum) <==> sum == AddRegs5(x, y)
  {
  }

  /** The compression is the relation of the standard, and nothing else follows. */
  lemma FollowsIffCompress1(s: Suite5, rounds: nat, state: Regs5, block: seq<int>, next: Regs5)
    requires rounds >= 16 && |block| == 16
    ensures Follows1(s, rounds, state, block, next) <==> next == Compress(Suite5Alg(s, rounds), state, block)
  {
    if Follows1(s, rounds, state, block, next) {
      var ws, rs :|
        && Expanded1(s, rounds, block, ws) && Stepped(StepOf1(s), state, ws, rs)
        && Added1(state, rs[rounds], next);
      OnlyCompress1(s, rounds, state, block, next, ws, rs);
    }
    if next == Compress(Suite5Alg(s, rounds), state, block) {
      CompressFollows1(s, rounds, state, block, next);
    }
  }

  lemma OnlyCompress1(s: Suite5, rounds: nat, state: Regs5, block: seq<int>, next: Regs5, ws: seq<int>, rs: seq<Regs5>)
    requires rounds >= 16 && |block| == 16
    requires Expanded1(s, rounds, block, ws) && Stepped(StepOf1(s), state, ws, rs)
    requires Added1(state, rs[rounds], next)
    ensures next == Compress(Suite5Alg(s, rounds), state, block)
  {
    ExpandedIsSchedule1(s, rounds, block, ws);
    StepIsRound1(s, rounds);
    SteppedIsRounds(Suite5Alg(s, rounds), StepOf1(s), state, ws, rs, rounds);
    assert ws[..rounds] == ws;
    AddedIsSum1(state, rs[rounds], next);
  }

  lemma CompressFollows1(s: Suite5, rounds: nat, state: Regs5, block: seq<int>, next: Regs5)
    requires rounds >= 16 && |block| == 16
    requires next == Compress(Suite5Alg(s, rounds), state, block)
    ensures Follows1(s, rounds, state, block, next)
  {
    var ws := Schedule(Suite5Alg(s, rounds), block, rounds);
    var rs := AllRounds(Suite5Alg(s, rounds), state, ws);
    ScheduleIsExpanded1(s, rounds, block, ws);
    StepIsRound1(s, rounds);
    RoundsAreStepped(Suite5Alg(s, rounds), StepOf1(s), state, ws);
    LastOfAll(Suite5Alg(s, rounds), state, ws, rs, rounds);
    CompressAdds1(s, rounds, state, block, next, ws, rs[rounds]);
    FollowsBy1(s, rounds, state, block, next, ws, rs);
  }

  lemma CompressAdds1(s: Suite5, rounds: nat, state: Regs5, block: seq<int>, next: Regs5, ws: seq<int>, last: Regs5)
    requires rounds >= 16 && |block| == 16
    requires ws == Schedule(Suite5Alg(s, rounds), block, rounds) && last == Rounds(Suite5Alg(s, rounds), state, ws)
    requires next == Compress(Suite5Alg(s, rounds), state, block)
    ensures Added1(state, last, next)
  {
    AddedIsSum1(state, last, next);
  }

  lemma FollowsBy1(s: Suite5, rounds: nat, state: Regs5, block: seq<int>, next: Regs5, ws: seq<int>, rs: seq<Regs5>)
    requires Expanded1(s, rounds, block, ws) && Stepped(StepOf1(s), state, ws, rs)
    requires Added1(state, rs[rounds], next)
    ensures Follows1(s, rounds, state, block, next)
  {
  }

  // ---------------------------------------------------------------- a message

  /** Section 5.1: the message, a one bit, as few zeros as fill whole blocks, and the length in bits. */
  lemma PadOfFips<S>(h: Hash<S>, m: Bytes)
    requires Proper(h)
    ensures var (p, n, w) := (Pad(h, m), |m|, 2 * h.wordBytes);
            && n + 1 + w <= |p| < n + 1 + w + 16 * h.wordBytes && Left(h, |p|) == 0
            && p[..n] == m && p[n] == 0x80 && (forall i :: n < i < |p| - w ==> p[i] == 0)
            && Number(p[|p| - w..]) == if h.wordBytes == 4 then 8 * n % TWO64 else 8 * n % TWO128
  {
    var p, z, n, w := Pad(h, m), ZeroBytes(h, |m|), |m|, 2 * h.wordBytes;
    PaddedShape(m, z, BigEndian(8 * n % CountMod(h), w), p);
    LengthIsBits(h, n, w);
  }

  lemma LengthIsBits<S>(h: Hash<S>, n: nat, w: nat)
    requires Proper(h) && w == 2 * h.wordBytes
    ensures Number(BigEndian(8 * n % CountMod(h), w)) == if h.wordBytes == 4 then 8 * n % TWO64 else 8 * n % TWO128
  {
    var bits := 8 * n % CountMod(h);
    CountFits(h, bits);
    NumberOfBigEndian(bits, w);
  }

  lemma PaddedShape(m: Bytes, z: nat, len: Bytes, p: Bytes)
    requires p == m + [0x80] + Zeros(z) + len
    ensures |p| == |m| + 1 + z + |len| && p[..|m|] == m && p[|m|] == 0x80 && p[|p| - |len|..] == len
    ensures forall i :: |m| < i < |p| - |len| ==> p[i] == 0
  {
  }

  lemma CountFits<S>(h: Hash<S>, x: nat)
    requires Proper(h) && x < CountMod(h)
    ensures Top(x, 2 * h.wordBytes) == 0
  {
    if h.wordBytes == 4 {
      RaiseWord(1, 8);
      TopSmall(x, 8);
    } else {
      RaiseFour(1, 12);
      RaiseFour(1, 8);
      RaiseWord(1, 8);
      TopSmall(x, 16);
    }
  }

  /** The big-endian words of a block. */
  lemma {:induction false} WordOf(b: Bytes, w: nat, j: nat, at: nat)
    requires WordSize(w) && at == (if w == 4 then 4 * j else 8 * j) && at + w <= |b|
    ensures j < |Words(b, w)| && Words(b, w)[j] == Number(b[at..at + w])
    decreases j
  {
    if j > 0 {
      var rest, i, from := b[w..], j - 1, at - w;
      WordOf(rest, w, i, from);
      SliceOfRest(b, w, from, at);
      WordOfRest(b, w, rest, i);
    }
  }

  lemma WordOfRest(b: Bytes, w: nat, rest: Bytes, i: nat)
    requires WordSize(w) && w <= |b| && rest == b[w..] && i < |Words(rest, w)|
    ensures i + 1 < |Words(b, w)| && Words(b, w)[i + 1] == Words(rest, w)[i]
  {
  }

  lemma SliceOfRest(b: Bytes, w: nat, i: nat, j: nat)
    requires i <= j && w + j <= |b|
    ensures b[w..][i..j] == b[w + i..w + j]
  {
  }

  /** The sixteen words of a block of 64 or of 128 bytes. */
  function WordsOf64(b: Bytes): (ws: seq<int>)
    requires |b| == 64
  {
    seq(16, j requires 0 <= j < 16 => Number(b[4 * j..4 * j + 4]))
  }

  function WordsOf128(b: Bytes): (ws: seq<int>)
    requires |b| == 128
  {
    seq(16, j requires 0 <= j < 16 => Number(b[8 * j..8 * j + 8]))
  }

  lemma BlockWords64<S>(h: Hash<S>, b: Bytes)
    requires Proper(h) && h.wordBytes == 4 && |b| == 64
    ensures BlockWords(h, b) == WordsOf64(b)
  {
    forall j | 0 <= j < 16 ensures BlockWords(h, b)[j] == WordsOf64(b)[j] { WordOf(b, 4, j, 4 * j); }
  }

  lemma BlockWords128<S>(h: Hash<S>, b: Bytes)
    requires Proper(h) && h.wordBytes == 8 && |b| == 128
    ensures BlockWords(h, b) == WordsOf128(b)
  {
    forall j | 0 <= j < 16 ensures BlockWords(h, b)[j] == WordsOf128(b)[j] { WordOf(b, 8, j, 8 * j); }
  }

  /** The bytes are these blocks, and each hash value follows from the one before with its block. */
  ghost predicate Chained<S>(h: Hash<S>, p: Bytes, bs: seq<Bytes>, hs: seq<S>)
    requires Proper(h)
  {
    && Concat(bs) == p && |hs| == |bs| + 1
    && forall i :: 0 <= i < |bs| ==> |bs[i]| == Block(h) && hs[i + 1] == Compress(h.alg, hs[i], BlockWords(h, bs[i]))
  }

  lemma {:induction false} ChainIsAbsorbed<S>(h: Hash<S>, p: Bytes, bs: seq<Bytes>, hs: seq<S>)
    requires Proper(h) && Chained(h, p, bs, hs)
    ensures Absorb(h, hs[0], p) == hs[|bs|] && Left(h, |p|) == 0
    decreases |bs|
  {
    if bs != [] {
      var k := |bs| - 1;
      var init := Concat(bs[..k]);
      assert Chained(h, init, bs[..k], hs[..|bs|]) by {
        assert forall i :: 0 <= i < k ==> bs[..k][i] == bs[i];
      }
      ChainIsAbsorbed(h, init, bs[..k], hs[..|bs|]);
      AbsorbJoin(h, hs[0], init, bs[k]);
      AbsorbOne(h, hs[k], bs[k]);
      LeftAdds(h, |init|, Block(h));
    }
  }

  lemma DigestOfChain<S>(h: Hash<S>, m: Bytes, bs: seq<Bytes>, hs: seq<S>)
    requires Proper(h) && Chained(h, Pad(h, m), bs, hs) && hs[0] == h.init
    ensures Digest(h, m) == Serialize(h.digest(hs[|bs|]), h.wordBytes)
  {
    ChainIsAbsorbed(h, Pad(h, m), bs, hs);
  }

  /** The bytes of a digest. */
  function Eight(r: Regs, w: nat): Bytes {
    BigEndian(r.a, w) + BigEndian(r.b, w) + BigEndian(r.c, w) + BigEndian(r.d, w)
    + BigEndian(r.e, w) + BigEndian(r.f, w) + BigEndian(r.g, w) + BigEndian(r.h, w)
  }

  function Five(r: Regs5, w: nat): Bytes {
    BigEndian(r.a, w) + BigEndian(r.b, w) + BigEndian(r.c, w) + BigEndian(r.d, w) + BigEndian(r.e, w)
  }

  lemma EightWords(r: Regs, w: nat)
    ensures Serialize([r.a, r.b, r.c, r.d, r.e, r.f, r.g, r.h], w) == Eight(r, w)
  {
    FourWords(r.a, r.b, r.c, r.d, w);
    OneMoreWord([r.a, r.b, r.c, r.d], r.e, [r.a, r.b, r.c, r.d, r.e], w);
    OneMoreWord([r.a, r.b, r.c, r.d, r.e], r.f, [r.a, r.b, r.c, r.d, r.e, r.f], w);
    OneMoreWord([r.a, r.b, r.c, r.d, r.e, r.f], r.g, [r.a, r.b, r.c, r.d, r.e, r.f, r.g], w);
    OneMoreWord([r.a, r.b, r.c, r.d, r.e, r.f, r.g], r.h, [r.a, r.b, r.c, r.d, r.e, r.f, r.g, r.h], w);
  }

  lemma FiveWords(r: Regs5, w: nat)
    ensures Serialize([r.a, r.b, r.c, r.d, r.e], w) == Five(r, w)
  {
    FourWords(r.a, r.b, r.c, r.d, w);
    OneMoreWord([r.a, r.b, r.c, r.d], r.e, [r.a, r.b, r.c, r.d, r.e], w);
  }

  lemma FourWords(a: int, b: int, c: int, d: int, w: nat)
    ensures Serialize([a, b, c, d], w) == BigEndian(a, w) + BigEndian(b, w) + BigEndian(c, w) + BigEndian(d, w)
  {
    OneMoreWord([], a, [a], w);
    OneMoreWord([a], b, [a, b], w);
    OneMoreWord([a, b], c, [a, b, c], w);
    OneMoreWord([a, b, c], d, [a, b, c, d], w);
    assert [] + BigEndian(a, w) == BigEndian(a, w);
  }

  lemma OneMoreWord(words: seq<int>, x: int, all: seq<int>, w: nat)
    requires all == words + [x]
    ensures Serialize(all, w) == Serialize(words, w) + BigEndian(x, w)
  {
    assert all[..|words|] == words;
  }

  /** SHA-256 of a message: from the roots of the first primes, block by block by the relation of the
      standard, to the eight words of the last hash value. */
  lemma Sha256OfFips(m: Bytes, bs: seq<Bytes>, hs: seq<Regs>)
    requires Concat(bs) == Pad(Sha256(), m) && |hs| == |bs| + 1 && hs[0] == SHA256_INITIAL
    requires forall i :: 0 <= i < |bs| ==>
               |bs[i]| == 64 && Follows(Sha256Suite(), 64, hs[i], WordsOf64(bs[i]), hs[i + 1])
    ensures Digest(Sha256(), m) == Eight(hs[|bs|], 4)
  {
    var h := Sha256();
    forall i | 0 <= i < |bs|
      ensures |bs[i]| == Block(h) && hs[i + 1] == Compress(h.alg, hs[i], BlockWords(h, bs[i]))
    {
      BlockWords64(h, bs[i]);
      FollowsIffCompress(Sha256Suite(), 64, hs[i], WordsOf64(bs[i]), hs[i + 1]);
    }
    DigestOfChain(h, m, bs, hs);
    EightWords(hs[|bs|], 4);
  }

  /** SHA-512 of a message. */
  lemma Sha512OfFips(m: Bytes, bs: seq<Bytes>, hs: seq<Regs>)
    requires Concat(bs) == Pad(Sha512(), m) && |hs| == |bs| + 1 && hs[0] == SHA512_INITIAL
    requires forall i :: 0 <= i < |bs| ==>
               |bs[i]| == 128 && Follows(Sha512Suite(), 80, hs[i], WordsOf128(bs[i]), hs[i + 1])
    ensures Digest(Sha512(), m) == Eight(hs[|bs|], 8)
  {
    var h := Sha512();
    forall i | 0 <= i < |bs|
      ensures |bs[i]| == Block(h) && hs[i + 1] == Compress(h.alg, hs[i], BlockWords(h, bs[i]))
    {
      BlockWords128(h, bs[i]);
      FollowsIffCompress(Sha512Suite(), 80, hs[i], WordsOf128(bs[i]), hs[i + 1]);
    }
    DigestOfChain(h, m, bs, hs);
    EightWords(hs[|bs|], 8);
  }

  /** SHA-1 of a message. */
  lemma Sha1OfFips(m: Bytes, bs: seq<Bytes>, hs: seq<Regs5>)
    requires Concat(bs) == Pad(Sha1(), m) && |hs| == |bs| + 1 && hs[0] == SHA1_INITIAL
    requires forall i :: 0 <= i < |bs| ==>
               |bs[i]| == 64 && Follows1(Sha1Suite(), 80, hs[i], WordsOf64(bs[i]), hs[i + 1])
    ensures Digest(Sha1(), m) == Five(hs[|bs|], 4)
  {
    var h := Sha1();
    forall i | 0 <= i < |bs|
      ensures |bs[i]| == Block(h) && hs[i + 1] == Compress(h.alg, hs[i], BlockWords(h, bs[i]))
    {
      BlockWords64(h, bs[i]);
      FollowsIffCompress1(Sha1Suite(), 80, hs[i], WordsOf64(bs[i]), hs[i + 1]);
    }
    DigestOfChain(h, m, bs, hs);
    FiveWords(hs[|bs|], 4);
  }
}
