/** The CPU hasher that works on one shared key: it mutates the key while hashing a candidate,
    notes the touched slots in the move scratch, and puts them back afterwards. */
module VerusMiner {
  import opened Clhash
  import opened MachineWords

  /** A possibly null pointer into the key. */
  datatype Pointer = Null | At(i: nat)

  const SCRATCH := 80    // pointers in the zeroed tail of the key buffer

  method RunMonkins<V>(o: Ops<V>, key: array<V>, selector: u64, b: V, c: V, acc0: V) returns (acc: V)
    requires key.Length >= KEY_MASK + 40
    ensures acc == Monkins(o, key[..], selector, b, c, Iterations(selector), Prand(selector), 0, acc0)
  {
    acc := acc0;
    var rounds: nat, rc: nat, aes: nat := Iterations(selector), Prand(selector), 0;
    ghost var target := Monkins(o, key[..], selector, b, c, rounds, rc, aes, acc);
    var again := true;
    while again
      invariant again ==> rc + aes + 5 * rounds + 4 < key.Length
      invariant again ==> Monkins(o, key[..], selector, b, c, rounds, rc, aes, acc) == target
      invariant !again ==> acc == target
      decreases again, rounds
    {
      var onekey := key[rc];
      rc := rc + 1;
      if Coin(selector, rounds) {
        acc := o.xor(o.clmul(o.xor(onekey, if rounds % 2 == 1 then b else c)), acc);
      } else {
        var s := Mix2(o, Aes2(o, key[..], rc + aes, onekey, if rounds % 2 == 1 then c else b));
        aes := aes + 4;
        acc := o.xor(s.0, acc);
        acc := o.xor(s.1, acc);
      }
      again := rounds != 0;
      rounds := if rounds != 0 then rounds - 1 else 0;
    }
  }

  method RunModulo<V>(o: Ops<V>, v22: bool, key: array<V>, selector: u64, b: V, c: V, acc0: V)
    returns (acc: V, onekey: V)
    requires key.Length >= KEY_MASK + 40 && Arm(selector) == 6
    ensures (acc, onekey)
         == Modulo(o, v22, key[..], selector, b, c, Iterations(selector), Prand(selector), acc0)
  {
    DivisorIsNonzero(selector);
    acc := acc0;
    var rounds: nat, rc: nat := Iterations(selector), Prand(selector);
    onekey := key[rc];
    ghost var target := Modulo(o, v22, key[..], selector, b, c, rounds, rc, acc);
    var again := true;
    while again
      invariant again ==> rc + rounds < key.Length
      invariant again ==> Modulo(o, v22, key[..], selector, b, c, rounds, rc, acc) == target
      invariant !again ==> (acc, onekey) == target
      decreases again, rounds
    {
      onekey := key[rc];
      rc := rc + 1;
      if Coin(selector, rounds) {
        var sum := o.xor(onekey, if rounds % 2 == 1 then b else c);
        if v22 {
          onekey := sum;
        }
        acc := o.xor(o.fromInt32(Rem(Signed64(o.low64(sum)), Divisor(selector))), acc);
      } else {
        var product := o.clmul(o.xor(onekey, if rounds % 2 == 1 then c else b));
        if v22 {
          onekey := product;
        }
        acc := o.xor(o.mulhrs(acc, product), acc);
      }
      again := rounds != 0;
      rounds := if rounds != 0 then rounds - 1 else 0;
    }
  }

  /** The switch of one round, up to its two stores. */
  method RunArm<V>(o: Ops<V>, v22: bool, key: array<V>, pbuf: seq<V>, acc: V) returns (w: Outcome<V>)
    requires key.Length >= KEY_MASK + 40 && |pbuf| == 4
    ensures w == Round(o, v22, key[..], pbuf, acc)
  {
    var selector := o.low64(acc);
    var p := Prand(selector);
    var kp, kx := key[p], key[Prandex(selector)];
    var b, c := pbuf[Pbuf(selector)], pbuf[Other(selector)];
    match Arm(selector) {
      case 0 => w := Arm0(o, kp, kx, b, c, acc);
      case 1 => w := Arm1(o, kp, kx, b, c, acc);
      case 2 => w := Arm2(o, kp, kx, b, c, acc);
      case 3 => w := Arm3(o, v22, selector, kp, kx, b, c, acc);
      case 4 => w := Arm4(o, key[..], p, kx, b, c, acc);
      case 5 =>
        var sum := RunMonkins(o, key, selector, b, c, acc);
        w := Arm5(o, kp, kx, sum);
      case 6 =>
        var sum, onekey := RunModulo(o, v22, key, selector, b, c, acc);
        w := Arm6(o, v22, kx, sum, onekey);
      case _ => w := Arm7(o, v22, kp, kx, b, c, acc);
    }
  }

  /** The first |log| pointers of the scratch hold the log. */
  ghost predicate Notes(scratch: seq<Pointer>, log: seq<nat>) {
    |log| <= |scratch| && forall i :: 0 <= i < |log| ==> scratch[i] == At(log[i])
  }

  /** The key and the scratch hold what the trace says; the pointers past the log area are `rest`. */
  ghost predicate Holds<V>(key: array<V>, scratch: array<Pointer>, n: nat, t: Trace<V>, rest: seq<Pointer>)
    reads key, scratch
  {
    && key[..] == t.key && Notes(scratch[..], t.log)
    && scratch.Length == SCRATCH >= 2 * n && scratch[2 * n..] == rest
  }

  lemma NotesNext(s: seq<Pointer>, log: seq<nat>, p: nat, x: nat)
    requires Notes(s, log) && |log| + 1 < |s|
    ensures Notes(s[|log| := At(p)][|log| + 1 := At(x)], log + [p, x])
  {
  }

  /** One round in place: the slots are noted in the scratch, then overwritten in the arm's order. */
  method RunRound<V>(o: Ops<V>, v22: bool, key: array<V>, scratch: array<Pointer>, pbuf: seq<V>,
                     n: nat, acc0: V, i: nat, ghost t: Trace<V>, ghost rest: seq<Pointer>)
    returns (acc: V, ghost u: Trace<V>)
    requires key.Length >= KEY_MASK + 40 && |pbuf| == 4 && key as object != scratch as object
    requires acc0 == t.acc && Holds(key, scratch, n, t, rest) && |t.log| == 2 * i && i < n
    modifies key, scratch
    ensures acc == u.acc && Holds(key, scratch, n, u, rest)
    ensures u == Next(o, v22, pbuf, t)
  {
    var selector := o.low64(acc0);
    var p, x := Prand(selector), Prandex(selector);
    NotesNext(scratch[..], t.log, p, x);
    ghost var noted := scratch[..][2 * i := At(p)][2 * i + 1 := At(x)];
    scratch[2 * i] := At(p);
    scratch[2 * i + 1] := At(x);
    assert key[..] == t.key;
    var w := RunArm(o, v22, key, pbuf, acc0);
    u := Advance(t, selector, w);
    acc := w.acc;
    if w.prandLast {
      key[x] := w.atPrandex;
      key[p] := w.atPrand;
    } else {
      key[p] := w.atPrand;
      key[x] := w.atPrandex;
    }
    assert key[..] == Store(t.key, p, x, w) && scratch[..] == noted;
  }

  /** The rounds; the source runs 32. */
  method Repeat<V>(o: Ops<V>, v22: bool, key: array<V>, scratch: array<Pointer>, pbuf: seq<V>, n: nat)
    returns (acc: V)
    requires key.Length >= KEY_MASK + 40 && |pbuf| == 4 && key as object != scratch as object
    requires scratch.Length == SCRATCH && 2 * n < SCRATCH
    modifies key, scratch
    ensures var t := Rounds(o, v22, old(key[..]), pbuf, old(key[KEY_MASK + 2]), n);
            acc == t.acc && Holds(key, scratch, n, t, old(scratch[2 * n..]))
  {
    acc := key[KEY_MASK + 2];
    ghost var key0, acc0, rest := key[..], acc, scratch[2 * n..];
    ghost var t := Rounds(o, v22, key0, pbuf, acc0, 0);
    for i := 0 to n
      invariant t == Rounds(o, v22, key0, pbuf, acc0, i)
      invariant acc == t.acc && Holds(key, scratch, n, t, rest)
    {
      acc, t := RunRound(o, v22, key, scratch, pbuf, n, acc, i, t, rest);
    }
  }

  /** `fixupkey`: every logged slot is copied back from the refresh area, up to the null pointer. */
  method FixupKey<V>(key: array<V>, scratch: array<Pointer>, ghost log: seq<nat>)
    requires key.Length >= KEY_BLOCKS + KEY_MASK + 1 && key as object != scratch as object
    requires Notes(scratch[..], log) && |log| < scratch.Length && scratch[|log|] == Null
    requires forall i :: 0 <= i < |log| ==> log[i] <= KEY_MASK
    modifies key
    ensures key[..] == Restore(old(key[..]), old(key[KEY_BLOCKS..]), log)
  {
    ghost var refresh := key[KEY_BLOCKS..];
    ghost var target := Restore(key[..], refresh, log);
    var i := 0;
    while scratch[i] != Null
      invariant 0 <= i <= |log| && key[KEY_BLOCKS..] == refresh
      invariant Restore(key[..], refresh, log[i..]) == target
      decreases |log| - i
    {
      assert scratch[..][i] == At(log[i]);
      var p := scratch[i].i;
      assert key[p + KEY_BLOCKS] == refresh[p];
      ghost var before := key[..];
      key[p] := key[p + KEY_BLOCKS];
      assert key[..] == before[p := refresh[p]];
      assert log[i..][1..] == log[i + 1..];
      i := i + 1;
    }
  }

  // ---------------------------------------------------------------- the candidate hash

  type Block32 = s: seq<Byte> | |s| == 32 witness seq(32, _ => 0)

  /** The instructions, the two Haraka functions and the keyed one, the reduction to 64 bits and the
      block xored in for the length. */
  datatype Crypto<!V> = Crypto(o: Ops<V>, load: seq<Byte> -> V, haraka256: Block32 -> Block32,
                               haraka512: seq<Byte> -> Block32,
                               haraka512Keyed: (seq<Byte>, seq<V>) -> Block32,
                               reduce: V -> u64, lengthHash: V)

  const HEADER := 76     // header bytes before the nonce
  const REFRESH := 512   // keyRefreshsize >> 4

  /** The sponge over the first 64 header bytes, then the 12 bytes before the nonce. */
  function Prefix<V>(c: Crypto<V>, header: seq<Byte>): (p: seq<Byte>)
    requires |header| == HEADER
    ensures |p| == 44
  {
    var h1 := c.haraka512(Zeros(32) + header[..32]);
    c.haraka512(h1 + header[32..64]) + header[64..]
  }

  /** Block i of the key stream: Haraka-256 iterated from the sponge state. */
  function KeyBlock<V>(c: Crypto<V>, seed: Block32, i: nat): Block32 {
    if i == 0 then c.haraka256(seed) else c.haraka256(KeyBlock(c, seed, i - 1))
  }

  /** Slot j of the key buffer: half of a stream block, and past the key the refresh copy. */
  function KeySlot<V>(c: Crypto<V>, seed: Block32, j: nat): V {
    var k := if j < KEY_BLOCKS then j else j - KEY_BLOCKS;
    var b := KeyBlock(c, seed, k / 2);
    if k % 2 == 0 then c.load(b[..16]) else c.load(b[16..])
  }

  /** The key followed by the copy of its first 512 slots. */
  function KeyBuffer<V>(c: Crypto<V>, seed: Block32): (k: seq<V>)
    ensures |k| == KEY_BLOCKS + REFRESH
    ensures forall i :: 0 <= i < REFRESH ==> k[KEY_BLOCKS + i] == k[i]
  {
    seq(KEY_BLOCKS + REFRESH, j requires 0 <= j => KeySlot(c, seed, j))
  }

  function Pbufs<V>(c: Crypto<V>, buf: seq<Byte>): (p: seq<V>)
    requires |buf| == 64
    ensures |p| == 4
  {
    var b0, b1, b2, b3 := c.load(buf[..16]), c.load(buf[16..32]), c.load(buf[32..48]), c.load(buf[48..]);
    [c.o.xor(b0, b2), c.o.xor(b1, b3), b2, b3]
  }

  function Intermediate<V>(c: Crypto<V>, t: Trace<V>): u64 {
    c.reduce(c.o.xor(t.acc, c.lengthHash))
  }

  /** The run of the rounds for one header and nonce, started on the pristine key. */
  function HashTrace<V>(c: Crypto<V>, v22: bool, n: nat, header: seq<Byte>, nonce: seq<Byte>)
    : (t: Trace<V>)
    requires |header| == HEADER && |nonce| == 4
    ensures |t.key| == KEY_BLOCKS + REFRESH && |t.log| == 2 * n
  {
    var p := Prefix(c, header);
    var key := KeyBuffer(c, p[..32]);
    Rounds(c.o, v22, key, Pbufs(c, p + nonce + p[..16]), key[KEY_MASK + 2], n)
  }

  /** The hash of one candidate as a function of header and nonce alone. */
  function JanusHash<V>(c: Crypto<V>, v22: bool, n: nat, header: seq<Byte>, nonce: seq<Byte>): Block32
    requires |header| == HEADER && |nonce| == 4
  {
    var t := HashTrace(c, v22, n, header, nonce);
    FinalHash(c, Prefix(c, header) + nonce, Intermediate(c, t), t.key)
  }

  /** The keyed hash of the buffer, filled up with the intermediate value. */
  function FinalHash<V>(c: Crypto<V>, front: seq<Byte>, x: u64, key: seq<V>): Block32
    requires |key| == KEY_BLOCKS + REFRESH
  {
    c.haraka512Keyed(front + LittleEndian(x, 8) + LittleEndian(x, 8), key[x % 512..x % 512 + 40])
  }

  /** `mine_job` picks the older loop for headers whose big-endian version word is 2. */
  predicate UsesV22(header: seq<Byte>)
    requires |header| == HEADER
  {
    header[68..72] != [0, 0, 0, 2]
  }

  method Write(a: array<Byte>, at: nat, bytes: seq<Byte>)
    requires at + |bytes| <= a.Length
    modifies a
    ensures a[..] == old(a[..at]) + bytes + old(a[at + |bytes|..])
  {
    for i := 0 to |bytes|
      invariant a[..at] == old(a[..at]) && a[at..at + i] == bytes[..i]
      invariant a[at + i..] == old(a[at + i..])
    {
      a[at + i] := bytes[i];
      assert a[at..at + i + 1] == a[at..at + i] + [bytes[i]];
    }
  }

  /** The key stream, 32 bytes at a time, each block hashed from the one before. */
  method FillStream<V>(c: Crypto<V>, key: array<V>, seed: Block32)
    requires key.Length == KEY_BLOCKS + REFRESH
    modifies key
    ensures forall j :: 0 <= j < KEY_BLOCKS ==> key[j] == KeySlot(c, seed, j)
  {
    var source := seed;
    for i := 0 to KEY_BLOCKS / 2
      invariant source == if i == 0 then seed else KeyBlock(c, seed, i - 1)
      invariant forall j :: 0 <= j < 2 * i ==> key[j] == KeySlot(c, seed, j)
    {
      source := c.haraka256(source);
      key[2 * i] := c.load(source[..16]);
      key[2 * i + 1] := c.load(source[16..]);
    }
  }

  /** The key stream and the copy of its first 512 slots. */
  method FillKey<V>(c: Crypto<V>, key: array<V>, seed: Block32)
    requires key.Length == KEY_BLOCKS + REFRESH
    modifies key
    ensures key[..] == KeyBuffer(c, seed)
  {
    FillStream(c, key, seed);
    for i := 0 to REFRESH
      invariant forall j :: 0 <= j < KEY_BLOCKS + i ==> key[j] == KeySlot(c, seed, j)
    {
      key[KEY_BLOCKS + i] := key[i];
    }
  }

  ghost function Nulls(n: nat): seq<Pointer> {
    seq(n, _ => Null)
  }

  /** Everything a hash for this header reads is as `check_set_header` left it. */
  ghost predicate Ready<V>(c: Crypto<V>, n: nat, key: array<V>, scratch: array<Pointer>,
                           curBuf: array<Byte>, h: seq<Byte>)
    requires |h| == HEADER && curBuf.Length == 64 && 2 * n < scratch.Length == SCRATCH
    reads key, scratch, curBuf
  {
    && curBuf[..44] == Prefix(c, h) && key[..] == KeyBuffer(c, Prefix(c, h)[..32])
    && scratch[2 * n..] == Nulls(SCRATCH - 2 * n)
  }

  method Clear(scratch: array<Pointer>)
    modifies scratch
    ensures scratch[..] == Nulls(scratch.Length)
  {
    for i := 0 to scratch.Length
      invariant forall j :: 0 <= j < i ==> scratch[j] == Null
    {
      scratch[i] := Null;
    }
  }

  /** Absorbs a new header, derives the key from the sponge state, and empties the move scratch. */
  method SetHeader<V>(c: Crypto<V>, n: nat, key: array<V>, scratch: array<Pointer>,
                      curBuf: array<Byte>, h: seq<Byte>)
    requires |h| == HEADER && curBuf.Length == 64 && 2 * n < scratch.Length == SCRATCH
    requires key.Length == KEY_BLOCKS + REFRESH
    requires key as object != scratch as object && key as object != curBuf as object
    requires scratch as object != curBuf as object
    modifies key, scratch, curBuf
    ensures Ready(c, n, key, scratch, curBuf, h)
  {
    var h1 := c.haraka512(Zeros(32) + h[..32]);
    var h2 := c.haraka512(h1 + h[32..64]);
    Write(curBuf, 0, h2 + h[64..] + Zeros(4));
    assert curBuf[..44] == h2 + h[64..] == Prefix(c, h);
    assert Prefix(c, h)[..32] == h2;
    FillKey(c, key, h2);
    Clear(scratch);
    assert scratch[2 * n..] == Nulls(SCRATCH - 2 * n);
  }

  /** Puts the nonce after the prefix and repeats the sponge state's first half behind it. */
  method PrepareBuffer(curBuf: array<Byte>, nonce: seq<Byte>, ghost p: seq<Byte>)
    requires curBuf.Length == 64 && |nonce| == 4 && |p| == 44 && curBuf[..44] == p
    modifies curBuf
    ensures curBuf[..] == p + nonce + p[..16]
  {
    Write(curBuf, 44, nonce);
    assert curBuf[..48] == p + nonce && curBuf[..16] == p[..16];
    Write(curBuf, 48, curBuf[..16]);
  }

  /** The last step: the intermediate value fills the buffer up, twice, and picks the key's part. */
  method LastHash<V>(c: Crypto<V>, key: array<V>, curBuf: array<Byte>, x: u64, ghost front: seq<Byte>,
                     ghost k: seq<V>)
    returns (hash: Block32)
    requires curBuf.Length == 64 && |front| == 48 && curBuf[..48] == front
    requires key[..] == k && |k| == KEY_BLOCKS + REFRESH && key as object != curBuf as object
    modifies curBuf
    ensures hash == FinalHash(c, front, x, k) && curBuf[..48] == front
  {
    Write(curBuf, 48, LittleEndian(x, 8) + LittleEndian(x, 8));
    assert curBuf[..] == front + LittleEndian(x, 8) + LittleEndian(x, 8);
    assert key[x % 512..x % 512 + 40] == k[x % 512..x % 512 + 40];
    hash := c.haraka512Keyed(curBuf[..], key[x % 512..x % 512 + 40]);
  }

  /** Hashes the prepared buffer, which mutates the key and fills the log. */
  method Digest<V>(c: Crypto<V>, v22: bool, n: nat, key: array<V>, scratch: array<Pointer>,
                   curBuf: array<Byte>, ghost h: seq<Byte>, ghost nonce: seq<Byte>)
    returns (hash: Block32)
    requires |h| == HEADER && |nonce| == 4 && 2 * n < scratch.Length == SCRATCH
    requires curBuf.Length == 64 && curBuf[..] == Prefix(c, h) + nonce + Prefix(c, h)[..16]
    requires key[..] == KeyBuffer(c, Prefix(c, h)[..32])
    requires key as object != scratch as object && key as object != curBuf as object
    requires scratch as object != curBuf as object
    modifies key, scratch, curBuf
    ensures hash == JanusHash(c, v22, n, h, nonce) && curBuf[..44] == Prefix(c, h)
    ensures Holds(key, scratch, n, HashTrace(c, v22, n, h, nonce), old(scratch[2 * n..]))
  {
    ghost var front, t := Prefix(c, h) + nonce, HashTrace(c, v22, n, h, nonce);
    var pbufs := Pbufs(c, curBuf[..]);
    var acc := Repeat(c.o, v22, key, scratch, pbufs, n);
    assert Holds(key, scratch, n, t, old(scratch[2 * n..])) && acc == t.acc;
    var x := c.reduce(c.o.xor(acc, c.lengthHash));
    assert curBuf[..48] == front;
    hash := LastHash(c, key, curBuf, x, front, t.key);
    assert curBuf[..44] == front[..44];
  }

  /** Undoes the key mutations of one hash. */
  method Undo<V>(c: Crypto<V>, v22: bool, n: nat, key: array<V>, scratch: array<Pointer>,
                 ghost h: seq<Byte>, ghost nonce: seq<Byte>, ghost rest: seq<Pointer>)
    requires |h| == HEADER && |nonce| == 4 && 2 * n < scratch.Length == SCRATCH
    requires key as object != scratch as object && |rest| > 0 && rest[0] == Null
    requires Holds(key, scratch, n, HashTrace(c, v22, n, h, nonce), rest)
    modifies key
    ensures key[..] == KeyBuffer(c, Prefix(c, h)[..32])
  {
    ghost var p := Prefix(c, h);
    ghost var key0 := KeyBuffer(c, p[..32]);
    ghost var t := HashTrace(c, v22, n, h, nonce);
    assert key[..] == t.key;
    RoundsLogged(c.o, v22, key0, Pbufs(c, p + nonce + p[..16]), key0[KEY_MASK + 2], n);
    UndoRestoresKey(c.o, v22, key0, Pbufs(c, p + nonce + p[..16]), key0[KEY_MASK + 2], n,
                    t.key[KEY_BLOCKS..]);
    assert scratch[2 * n..][0] == Null;
    FixupKey(key, scratch, t.log);
  }

  /** The hash is a function of this candidate's header and nonce, with the key its header gives. */
  ghost predicate OwnHash<V>(c: Crypto<V>, rounds: nat, candidate: (seq<Byte>, seq<Byte>), hash: Block32) {
    && |candidate.0| == HEADER && |candidate.1| == 4
    && hash == JanusHash(c, UsesV22(candidate.0), rounds, candidate.0, candidate.1)
  }

  ghost predicate AllOwn<V>(c: Crypto<V>, rounds: nat, candidates: seq<(seq<Byte>, seq<Byte>)>,
                            hashes: seq<Block32>)
  {
    |hashes| == |candidates|
    && forall i :: 0 <= i < |hashes| ==> OwnHash(c, rounds, candidates[i], hashes[i])
  }

  lemma OneMoreOwn<V>(c: Crypto<V>, rounds: nat, candidates: seq<(seq<Byte>, seq<Byte>)>, i: nat,
                      hashes: seq<Block32>, hash: Block32)
    requires i < |candidates| && AllOwn(c, rounds, candidates[..i], hashes)
    requires OwnHash(c, rounds, candidates[i], hash)
    ensures AllOwn(c, rounds, candidates[..i + 1], hashes + [hash])
  {
    forall j | 0 <= j <= i ensures OwnHash(c, rounds, candidates[..i + 1][j], (hashes + [hash])[j]) {
      if j < i {
        assert candidates[..i][j] == candidates[j];
      }
    }
  }

  class Miner<V(0)> {
    const c: Crypto<V>
    /** 32 in the source. */
    const rounds: nat
    const key: array<V>
    const scratch: array<Pointer>
    const curBuf: array<Byte>
    const header: array<Byte>
    /** `fresh` in the source: no header has been set yet. */
    var unset: bool

    ghost predicate Valid()
      reads this, key, scratch, curBuf, header
    {
      && key.Length == KEY_BLOCKS + REFRESH && scratch.Length == SCRATCH > 2 * rounds
      && curBuf.Length == 64 && header.Length == HEADER + 4
      && curBuf != header && key as object != scratch as object
      && key as object != curBuf as object && key as object != header as object
      && scratch as object != curBuf as object && scratch as object != header as object
      && (!unset ==> Ready(c, rounds, key, scratch, curBuf, header[..HEADER]))
    }

    constructor (c: Crypto<V>, rounds: nat)
      requires 2 * rounds < SCRATCH
      ensures Valid() && unset && this.c == c && this.rounds == rounds
    {
      this.c, this.rounds := c, rounds;
      key := new V[KEY_BLOCKS + REFRESH];
      scratch := new Pointer[SCRATCH](_ => Null);
      curBuf := new Byte[64](_ => 0);
      header := new Byte[HEADER + 4](_ => 0);
      unset := true;
    }

    method CheckSetHeader(h: seq<Byte>)
      requires Valid() && |h| == HEADER
      modifies this, key, scratch, curBuf, header
      ensures Valid() && !unset && header[..HEADER] == h
    {
      if !unset && header[..HEADER] == h {
        return;
      }
      unset := false;
      Write(header, 0, h);
      Write(header, HEADER, Zeros(4));
      SetHeader(c, rounds, key, scratch, curBuf, h);
      assert header[..HEADER] == h;
    }

    /** Hashes one candidate for the current header; the key is as before when it returns. */
    method HashNonce(v22: bool, nonce: seq<Byte>) returns (hash: Block32)
      requires Valid() && !unset && |nonce| == 4
      modifies key, scratch, curBuf, header
      ensures Valid() && header[..HEADER] == old(header[..HEADER])
      ensures hash == JanusHash(c, v22, rounds, header[..HEADER], nonce)
    {
      ghost var h := header[..HEADER];
      PrepareBuffer(curBuf, nonce, Prefix(c, h));
      hash := Digest(c, v22, rounds, key, scratch, curBuf, h, nonce);
      Undo(c, v22, rounds, key, scratch, h, nonce, old(scratch[2 * rounds..]));
      assert Ready(c, rounds, key, scratch, curBuf, h);
      Write(header, HEADER, nonce);
      assert header[..HEADER] == h;
    }

    method HashOne(candidate: (seq<Byte>, seq<Byte>)) returns (hash: Block32)
      requires Valid() && |candidate.0| == HEADER && |candidate.1| == 4
      modifies this, key, scratch, curBuf, header
      ensures Valid() && OwnHash(c, rounds, candidate, hash)
    {
      CheckSetHeader(candidate.0);
      hash := HashNonce(UsesV22(candidate.0), candidate.1);
    }

    /** Over any sequence of candidates, for any mix of headers, each hash is that candidate's own. */
    method HashAll(candidates: seq<(seq<Byte>, seq<Byte>)>) returns (hashes: seq<Block32>)
      requires Valid()
      requires forall i :: 0 <= i < |candidates| ==> |candidates[i].0| == HEADER && |candidates[i].1| == 4
      modifies this, key, scratch, curBuf, header
      ensures Valid() && AllOwn(c, rounds, candidates, hashes)
    {
      hashes := [];
      for i := 0 to |candidates|
        invariant Valid() && AllOwn(c, rounds, candidates[..i], hashes)
      {
        var hash := HashOne(candidates[i]);
        OneMoreOwn(c, rounds, candidates, i, hashes, hash);
        hashes := hashes + [hash];
      }
      assert candidates[..|candidates|] == candidates;
    }
  }
}
