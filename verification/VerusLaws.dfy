/** The parts of VerusHash that the fast and the portable hasher share, described without them: the key
    stream, the four blocks the rounds read, the choice of the variant, and the hash of a message from
    its blocks to the last keyed step. */
module VerusLaws {
  import opened Clhash
  import opened MachineWords
  import opened Sha2Bytes
  import opened VerusHasher
  import opened VerusMiner

  // ---------------------------------------------------------------- the key

  lemma {:induction false} BlockShifts<V>(c: Crypto<V>, seed: Block32, i: nat)
    ensures KeyBlock(c, seed, i + 1) == KeyBlock(c, c.haraka256(seed), i)
  {
    if i > 0 { BlockShifts(c, seed, i - 1); }
  }

  /** The key is Haraka-256 iterated from the seed, each result's first half before its second; then comes
      the copy of the first 512 slots. */
  lemma KeyIsStream<V>(c: Crypto<V>, seed: Block32, j: nat)
    ensures KeyBuffer(c, seed)[0] == c.load(c.haraka256(seed)[..16])
    ensures KeyBuffer(c, seed)[1] == c.load(c.haraka256(seed)[16..])
    ensures j + 2 < KEY_BLOCKS ==> KeyBuffer(c, seed)[j + 2] == KeyBuffer(c, c.haraka256(seed))[j]
    ensures j < 512 ==> KeyBuffer(c, seed)[552 + j] == KeyBuffer(c, seed)[j]
  {
    if j + 2 < KEY_BLOCKS {
      BlockShifts(c, seed, j / 2);
      assert (j + 2) / 2 == j / 2 + 1 && (j + 2) % 2 == j % 2;
    }
  }

  /** The same slot by slot, for any list of blocks each of which is the hash of the one before. */
  lemma KeyOfBlocks<V>(c: Crypto<V>, seed: Block32, blocks: seq<Block32>, i: nat)
    requires |blocks| == 276 && blocks[0] == c.haraka256(seed) && i < 276
    requires forall k :: 0 < k < 276 ==> blocks[k] == c.haraka256(blocks[k - 1])
    ensures KeyBuffer(c, seed)[2 * i] == c.load(blocks[i][..16])
    ensures KeyBuffer(c, seed)[2 * i + 1] == c.load(blocks[i][16..])
  {
    BlocksAreKeyBlocks(c, seed, blocks, i);
  }

  lemma {:induction false} BlocksAreKeyBlocks<V>(c: Crypto<V>, seed: Block32, blocks: seq<Block32>, i: nat)
    requires |blocks| == 276 && blocks[0] == c.haraka256(seed) && i < 276
    requires forall k :: 0 < k < 276 ==> blocks[k] == c.haraka256(blocks[k - 1])
    ensures blocks[i] == KeyBlock(c, seed, i)
  {
    if i > 0 { BlocksAreKeyBlocks(c, seed, blocks, i - 1); }
  }

  // ---------------------------------------------------------------- buffer and variant

  /** The first two blocks have the last two folded in. */
  lemma BlocksOfBuffer<V>(c: Crypto<V>, buf: Bytes, i: nat)
    requires |buf| == 64 && i < 2
    ensures Pbufs(c, buf)[i] == c.o.xor(c.load(buf[16 * i..16 * i + 16]), c.load(buf[16 * i + 32..16 * i + 48]))
    ensures Pbufs(c, buf)[i + 2] == c.load(buf[16 * i + 32..16 * i + 48])
  {
    assert buf[48..] == buf[48..64];
    if i == 0 {} else {}
  }

  /** The older variant is for headers whose big-endian version word is 2. */
  lemma VersionWord(header: Bytes)
    requires |header| == HEADER
    ensures UsesV22(header) <==> Number(header[68..72]) != 2
  {
    var v := header[68..72];
    NumberOfFour(v);
  }

  // ---------------------------------------------------------------- the hash of a message

  /** The sponge states lead from zeros through the blocks. */
  ghost predicate Absorbing<V>(c: Crypto<V>, blocks: seq<Bytes>, states: seq<Bytes>) {
    && |states| == |blocks| + 1 && states[0] == Zeros(32)
    && forall i :: 0 <= i < |blocks| ==>
         |blocks[i]| == 32 && states[i + 1] == c.haraka512(states[i] + blocks[i])
  }

  lemma {:induction false} AbsorbingIsChain<V>(c: Crypto<V>, blocks: seq<Bytes>, states: seq<Bytes>)
    requires Absorbing(c, blocks, states)
    ensures |Concat(blocks)| % 32 == 0 && states[|blocks|] == Chain(c, Concat(blocks))
    decreases |blocks|
  {
    if blocks != [] {
      var k := |blocks| - 1;
      var init, b := Concat(blocks[..k]), blocks[k];
      AbsorbingLess(c, blocks, states, k);
      AbsorbingIsChain(c, blocks[..k], states[..k + 1]);
      ChainOfMore(c, init, b);
      assert states[k + 1] == c.haraka512(states[..k + 1][k] + b);
    }
  }

  lemma AbsorbingLess<V>(c: Crypto<V>, blocks: seq<Bytes>, states: seq<Bytes>, k: nat)
    requires Absorbing(c, blocks, states) && k <= |blocks|
    ensures Absorbing(c, blocks[..k], states[..k + 1])
  {
    var bs, ss := blocks[..k], states[..k + 1];
    forall i | 0 <= i < k ensures |bs[i]| == 32 && ss[i + 1] == c.haraka512(ss[i] + bs[i]) {
      assert bs[i] == blocks[i] && ss[i] == states[i] && ss[i + 1] == states[i + 1];
    }
  }

  lemma ChainOfMore<V>(c: Crypto<V>, init: Bytes, b: Bytes)
    requires |b| == 32
    ensures Chain(c, init + b) == c.haraka512(Chain(c, init) + b)
  {
    var all := init + b;
    assert all[..|all| - 32] == init && all[|all| - 32..] == b;
  }

  /** The rounds lead from the pristine key and its slot 513 to these accumulators, keys and logs. */
  ghost predicate Rounding<V>(c: Crypto<V>, v22: bool, key: seq<V>, pbufs: seq<V>, traces: seq<Trace<V>>)
    requires |key| == 1064 && |pbufs| == 4
  {
    && |traces| > 0 && traces[0] == Trace(key[513], key, [])
    && forall i :: 0 <= i < |traces| - 1 ==>
         |traces[i].key| == 1064 && traces[i + 1] == Next(c.o, v22, pbufs, traces[i])
  }

  lemma {:induction false} RoundingIsRounds<V>(c: Crypto<V>, v22: bool, key: seq<V>, pbufs: seq<V>,
                                               traces: seq<Trace<V>>, i: nat)
    requires |key| == 1064 && |pbufs| == 4 && Rounding(c, v22, key, pbufs, traces) && i < |traces|
    ensures traces[i] == Rounds(c.o, v22, key, pbufs, key[513], i)
  {
    if i == 0 {
      NoRounds(c, v22, key, pbufs, i);
    } else {
      var before, after := traces[i - 1], traces[i];
      RoundingIsRounds(c, v22, key, pbufs, traces, i - 1);
      RoundingNext(c, v22, key, pbufs, traces, i - 1, before, after);
      OneMoreRound(c, v22, key, pbufs, before, after, i);
    }
  }

  lemma RoundingNext<V>(c: Crypto<V>, v22: bool, key: seq<V>, pbufs: seq<V>, traces: seq<Trace<V>>, i: nat,
                        before: Trace<V>, after: Trace<V>)
    requires |key| == 1064 && |pbufs| == 4 && Rounding(c, v22, key, pbufs, traces) && i + 1 < |traces|
    requires before == traces[i] && after == traces[i + 1]
    ensures |before.key| == 1064 && after == Next(c.o, v22, pbufs, before)
  {
  }

  lemma NoRounds<V>(c: Crypto<V>, v22: bool, key: seq<V>, pbufs: seq<V>, n: nat)
    requires |key| == 1064 && |pbufs| == 4 && n == 0
    ensures Rounds(c.o, v22, key, pbufs, key[513], n) == Trace(key[513], key, [])
  {
  }

  lemma OneMoreRound<V>(c: Crypto<V>, v22: bool, key: seq<V>, pbufs: seq<V>, t: Trace<V>, u: Trace<V>, n: nat)
    requires |key| == 1064 && |pbufs| == 4 && n > 0 && t == Rounds(c.o, v22, key, pbufs, key[513], n - 1)
    requires u == Next(c.o, v22, pbufs, t)
    ensures u == Rounds(c.o, v22, key, pbufs, key[513], n)
  {
  }

  /** VerusHash of a message that is these whole blocks and a rest: the rest is followed by the state, cut
      off or repeated; the rounds run on the state's key; and the reduced accumulator takes the place of
      what was filled in and picks forty slots of the mutated key. */
  lemma VerusHashOf<V>(c: Crypto<V>, v22: bool, m: Bytes, blocks: seq<Bytes>, rest: Bytes, states: seq<Bytes>,
                       traces: seq<Trace<V>>)
    requires m == Concat(blocks) + rest && |rest| < 32 && Absorbing(c, blocks, states) && |traces| > 0
    requires |states[|blocks|]| == 32
    requires var s := states[|blocks|];
             Rounding(c, v22, KeyBuffer(c, s), Pbufs(c, s + rest + Filled(s[..16], 32 - |rest|)), traces)
    ensures var s, t := states[|blocks|], traces[|traces| - 1];
            var x := c.reduce(c.o.xor(t.acc, c.lengthHash));
            && |t.key| == 1064
            && VerusHash(c, v22, |traces| - 1, m)
            == c.haraka512Keyed(s + rest + Filled(LittleEndian(x, 8), 32 - |rest|), t.key[x % 512..x % 512 + 40])
  {
    AbsorbingIsChain(c, blocks, states);
    WholeAndRest(Concat(blocks), rest);
    var s: Block32 := states[|blocks|];
    var key := KeyBuffer(c, s);
    RoundingIsRounds(c, v22, key, Pbufs(c, s + rest + Filled(s[..16], 32 - |rest|)), traces, |traces| - 1);
    HashOfParts(c, v22, |traces| - 1, m, s, rest, traces[|traces| - 1]);
  }

  lemma HashOfParts<V>(c: Crypto<V>, v22: bool, n: nat, m: Bytes, s: Block32, rest: Bytes, t: Trace<V>)
    requires s == Chain(c, Whole(m)) && rest == Rest(m)
    requires var key := KeyBuffer(c, s);
             t == Rounds(c.o, v22, key, Pbufs(c, s + rest + Filled(s[..16], 32 - |rest|)), key[513], n)
    ensures var x := c.reduce(c.o.xor(t.acc, c.lengthHash));
            && |t.key| == 1064
            && VerusHash(c, v22, n, m)
            == c.haraka512Keyed(s + rest + Filled(LittleEndian(x, 8), 32 - |rest|), t.key[x % 512..x % 512 + 40])
  {
    var key := KeyBuffer(c, s);
    TraceOfParts(c, v22, n, m, s, rest, s + rest + Filled(s[..16], 32 - |rest|), key, key[513]);
    HashOfTrace(c, v22, n, m, s, rest, t, Intermediate(c, t));
  }

  lemma TraceOfParts<V>(c: Crypto<V>, v22: bool, n: nat, m: Bytes, s: Block32, rest: Bytes, buf: Bytes,
                        key: seq<V>, acc: V)
    requires s == Chain(c, Whole(m)) && rest == Rest(m) && buf == s + rest + Filled(s[..16], 32 - |rest|)
    requires key == KeyBuffer(c, s) && acc == key[513]
    ensures VerusTrace(c, v22, n, m) == Rounds(c.o, v22, key, Pbufs(c, buf), acc, n)
  {
    assert buf == Buffer(c, m, s[..16]);
  }

  lemma HashOfTrace<V>(c: Crypto<V>, v22: bool, n: nat, m: Bytes, s: Block32, rest: Bytes, t: Trace<V>, x: u64)
    requires s == Chain(c, Whole(m)) && rest == Rest(m) && t == VerusTrace(c, v22, n, m)
    requires x == c.reduce(c.o.xor(t.acc, c.lengthHash))
    ensures VerusHash(c, v22, n, m)
         == c.haraka512Keyed(s + rest + Filled(LittleEndian(x, 8), 32 - |rest|), t.key[x % 512..x % 512 + 40])
  {
    FilledSame(LittleEndian(x, 8), 32 - |rest|, 32 - |Rest(m)|);
    BufferIs(c, m, s, rest, LittleEndian(x, 8), Filled(LittleEndian(x, 8), 32 - |rest|));
    HashOfBuffer(c, v22, n, m, t, x, Buffer(c, m, LittleEndian(x, 8)));
  }

  lemma BufferIs<V>(c: Crypto<V>, m: Bytes, s: Block32, rest: Bytes, data: Bytes, f: Bytes)
    requires s == Chain(c, Whole(m)) && rest == Rest(m) && |data| > 0 && f == Filled(data, 32 - |Rest(m)|)
    ensures Buffer(c, m, data) == s + rest + f
  {
    JoinSame(s, rest, f, Chain(c, Whole(m)), Rest(m), Filled(data, 32 - |Rest(m)|));
  }

  lemma FilledSame(data: Bytes, n: nat, k: nat)
    requires |data| > 0 && n == k
    ensures Filled(data, n) == Filled(data, k)
  {
  }

  lemma JoinSame(a: Bytes, b: Bytes, d: Bytes, a': Bytes, b': Bytes, d': Bytes)
    requires a == a' && b == b' && d == d'
    ensures a + b + d == a' + b' + d'
  {
  }

  lemma HashOfBuffer<V>(c: Crypto<V>, v22: bool, n: nat, m: Bytes, t: Trace<V>, x: u64, buf: Bytes)
    requires t == VerusTrace(c, v22, n, m) && x == Intermediate(c, t) && buf == Buffer(c, m, LittleEndian(x, 8))
    ensures VerusHash(c, v22, n, m) == c.haraka512Keyed(buf, t.key[x % 512..x % 512 + 40])
  {
  }

  lemma WholeAndRest(whole: Bytes, rest: Bytes)
    requires |whole| % 32 == 0 && |rest| < 32
    ensures Whole(whole + rest) == whole && Rest(whole + rest) == rest
  {
    assert |whole + rest| % 32 == |rest|;
  }

  /** Filling repeats the data. */
  lemma {:induction false} FilledAt(data: Bytes, n: nat, i: nat)
    requires |data| > 0 && i < n
    ensures Filled(data, n)[i] == if i < |data| then data[i] else Filled(data, n)[i - |data|]
    decreases n
  {
    if n > |data| && i >= |data| {
      var more := Filled(data, n - |data|);
      assert Filled(data, n)[i] == more[i - |data|];
      FilledPrefix(data, n, n - |data|, i - |data|);
    }
  }

  lemma {:induction false} FilledPrefix(data: Bytes, n: nat, k: nat, i: nat)
    requires |data| > 0 && i < k <= n
    ensures Filled(data, n)[i] == Filled(data, k)[i]
    decreases n
  {
    if i >= |data| {
      FilledPrefix(data, n - |data|, k - |data|, i - |data|);
    }
  }
}
