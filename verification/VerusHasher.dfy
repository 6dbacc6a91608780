/** The portable hasher: VerusHash of a message of any length, written in any pieces.  It is what the
    miner's hashes have to agree with. */
module VerusHasher {
  import opened Clhash
  import opened MachineWords
  import opened VerusMiner

  // ---------------------------------------------------------------- the hash of a message

  /** The whole 32-byte blocks of a message, and what is left over. */
  function Whole(m: Bytes): Bytes {
    m[..|m| - |m| % 32]
  }

  function Rest(m: Bytes): (r: Bytes)
    ensures |r| == |m| % 32
  {
    m[|m| - |m| % 32..]
  }

  /** The sponge state after these blocks. */
  function Chain<V>(c: Crypto<V>, blocks: Bytes): Block32
    decreases |blocks|
  {
    if |blocks| < 32 then Zeros(32)
    else c.haraka512(Chain(c, blocks[..|blocks| - 32]) + blocks[|blocks| - 32..])
  }

  /** n bytes of data, repeated as often as it takes. */
  function Filled(data: Bytes, n: nat): (f: Bytes)
    requires |data| > 0
    ensures |f| == n
  {
    if n <= |data| then data[..n] else data + Filled(data, n - |data|)
  }

  /** The buffer when the message has been absorbed and filled up with data. */
  function Buffer<V>(c: Crypto<V>, m: Bytes, data: Bytes): (b: Bytes)
    requires |data| > 0
    ensures |b| == 64
  {
    Chain(c, Whole(m)) + Rest(m) + Filled(data, 32 - |Rest(m)|)
  }

  /** The run of the rounds for a message: the key comes from the sponge state, and the buffer is
      filled up with the state's first half. */
  function VerusTrace<V>(c: Crypto<V>, v22: bool, n: nat, m: Bytes): (t: Trace<V>)
    ensures |t.key| == KEY_BLOCKS + REFRESH && |t.log| == 2 * n
  {
    var s, key := Chain(c, Whole(m)), KeyBuffer(c, Chain(c, Whole(m)));
    Rounds(c.o, v22, key, Pbufs(c, Buffer(c, m, s[..16])), key[KEY_MASK + 2], n)
  }

  /** `verus_hash`. */
  function VerusHash<V>(c: Crypto<V>, v22: bool, n: nat, m: Bytes): Block32 {
    var t := VerusTrace(c, v22, n, m);
    var x := Intermediate(c, t);
    c.haraka512Keyed(Buffer(c, m, LittleEndian(x, 8)), t.key[x % 512..x % 512 + 40])
  }

  // ---------------------------------------------------------------- the hash of a header

  /** A header with its nonce is two blocks and a half. */
  lemma HeaderBlocks(header: Bytes, nonce: Bytes)
    requires |header| == HEADER && |nonce| == 4
    ensures Whole(header + nonce) == header[..64] && Rest(header + nonce) == header[64..] + nonce
  {
  }

  lemma HeaderChain<V>(c: Crypto<V>, header: Bytes)
    requires |header| == HEADER
    ensures Chain(c, header[..64]) + header[64..] == Prefix(c, header)
  {
    assert header[..64][..32] == header[..32] && header[..64][32..] == header[32..64];
    assert header[..32][0..] == header[..32] && Chain(c, header[..32][..0]) == Zeros(32);
    assert Chain(c, header[..32]) == c.haraka512(Zeros(32) + header[..32]);
  }

  lemma FilledHalves(a: Bytes, b: Bytes)
    requires |a| == 16 && |b| == 8
    ensures Filled(a, 16) == a && Filled(b, 16) == b + b
  {
    assert a[..16] == a && b[..8] == b;
    assert Filled(b, 8) == b;
  }

  /** The fast hash is the plain one: what the miner computes for a candidate is `verus_hash` of the
      header followed by the nonce. */
  lemma JanusIsVerus<V>(c: Crypto<V>, v22: bool, n: nat, header: Bytes, nonce: Bytes)
    requires |header| == HEADER && |nonce| == 4
    ensures JanusHash(c, v22, n, header, nonce) == VerusHash(c, v22, n, header + nonce)
  {
    var p, m := Prefix(c, header), header + nonce;
    HeaderBlocks(header, nonce);
    HeaderChain(c, header);
    var s := Chain(c, Whole(m));
    assert p[..32] == s && p[..16] == s[..16] && s + Rest(m) == p + nonce;
    var x := Intermediate(c, VerusTrace(c, v22, n, m));
    FilledHalves(s[..16], LittleEndian(x, 8));
    Associate(p + nonce, LittleEndian(x, 8), LittleEndian(x, 8));
  }

  /** So every hash of a miner is the plain hash of its candidate. */
  lemma OwnHashIsVerusHash<V>(c: Crypto<V>, rounds: nat, candidate: (Bytes, Bytes), hash: Block32)
    requires OwnHash(c, rounds, candidate, hash)
    ensures hash == VerusHash(c, UsesV22(candidate.0), rounds, candidate.0 + candidate.1)
  {
    JanusIsVerus(c, UsesV22(candidate.0), rounds, candidate.0, candidate.1);
  }

  // ---------------------------------------------------------------- the object

  lemma BlockCompleted<V>(c: Crypto<V>, m: Bytes, d: Bytes)
    requires |m| % 32 + |d| == 32
    ensures Chain(c, Whole(m + d)) == c.haraka512(Chain(c, Whole(m)) + Rest(m) + d) && Rest(m + d) == []
  {
    var w := Whole(m + d);
    assert |m + d| % 32 == 0 && w == m + d;
    assert w[..|w| - 32] == Whole(m) && w[|w| - 32..] == Rest(m) + d;
    Associate(Chain(c, Whole(m)), Rest(m), d);
  }

  /** The buffer and the position in its upper half. */
  datatype Sponge = Sponge(buf: Bytes, at: nat)

  /** The lower half is the sponge state, the upper half begins with the left-over bytes. */
  ghost predicate Absorbed<V>(c: Crypto<V>, m: Bytes, s: Sponge) {
    match s
    case Sponge(buf, at) => |buf| == 64 && at == |m| % 32 && buf[..32 + at] == Chain(c, Whole(m)) + Rest(m)
  }

  lemma NothingWritten<V>(c: Crypto<V>, m: Bytes, buf: Bytes)
    requires m == [] && buf == Zeros(64)
    ensures Absorbed(c, m, Sponge(buf, 0))
  {
    assert buf[..32] == Zeros(32) && Whole(m) == [] && Rest(m) == [];
  }

  /** The data reach the end of the block: it is hashed into another buffer. */
  lemma BlockHashed<V>(c: Crypto<V>, m: Bytes, s: Sponge, d: Bytes, block: Bytes, next: Bytes)
    requires Absorbed(c, m, s) && |d| == 32 - s.at
    requires block == s.buf[..32 + s.at] + d
    requires |next| == 64 && next[..32] == c.haraka512(block)
    ensures Absorbed(c, m + d, Sponge(next, 0))
  {
    BlockCompleted(c, m, d);
    assert next[..32 + 0] == next[..32] + Rest(m + d);
  }

  lemma BytesKept<V>(c: Crypto<V>, m: Bytes, s: Sponge, d: Bytes, next: Bytes)
    requires Absorbed(c, m, s) && |d| < 32 - s.at
    requires |next| == 64 && next[..32 + s.at + |d|] == s.buf[..32 + s.at] + d
    ensures Absorbed(c, m + d, Sponge(next, s.at + |d|))
  {
    RestGrows(m, d);
    Associate(Chain(c, Whole(m)), Rest(m), d);
  }

  lemma FirstBytes<V>(c: Crypto<V>, m: Bytes, s: Sponge)
    requires Absorbed(c, m, s)
    ensures s.buf[..16] == Chain(c, Whole(m))[..16]
  {
    assert s.buf[..16] == s.buf[..32 + s.at][..16];
  }

  lemma FilledUp<V>(c: Crypto<V>, m: Bytes, s: Sponge, data: Bytes, next: Bytes)
    requires Absorbed(c, m, s) && |data| > 0
    requires s.at < 32 && next == s.buf[..32 + s.at] + Filled(data, 32 - s.at)
    ensures Absorbed(c, m, Sponge(next, s.at)) && next == Buffer(c, m, data) && next[..32] == Chain(c, Whole(m))
  {
    var front := s.buf[..32 + s.at];
    assert next[..32 + s.at] == front;
    assert next[..32] == front[..32];
  }

  lemma RestGrows(m: Bytes, d: Bytes)
    requires |m| % 32 + |d| < 32
    ensures Whole(m + d) == Whole(m) && Rest(m + d) == Rest(m) + d
  {
    assert |m + d| % 32 == |m| % 32 + |d|;
  }

  class Hasher<V(0)> {
    const c: Crypto<V>
    /** 32 in the source. */
    const rounds: nat
    var curBuf: array<Byte>
    var result: array<Byte>
    var curPos: nat
    /** Everything written. */
    ghost var message: Bytes

    ghost predicate Valid()
      reads this, curBuf, result
    {
      && curBuf.Length == 64 && result.Length == 64 && curBuf != result && 2 * rounds < SCRATCH
      && curPos < 32 && Absorbed(c, message, Sponge(curBuf[..], curPos))
    }

    constructor (c: Crypto<V>, rounds: nat)
      requires 2 * rounds < SCRATCH
      ensures Valid() && fresh(curBuf) && fresh(result) && message == []
      ensures this.c == c && this.rounds == rounds
    {
      this.c, this.rounds := c, rounds;
      var buf1, buf2 := new Byte[64](_ => 0), new Byte[64](_ => 0);
      curBuf, result := buf1, buf2;
      curPos, message := 0, [];
      new;
      assert buf1[..] == Zeros(64);
      NothingWritten(c, message, buf1[..]);
    }

    method Reset()
      requires Valid()
      modifies this`curPos, this`message, curBuf
      ensures Valid() && message == []
    {
      forall i | 0 <= i < 64 {
        curBuf[i] := 0;
      }
      curPos, message := 0, [];
      assert curBuf[..] == Zeros(64);
      NothingWritten(c, message, curBuf[..]);
    }

    /** The data reach the end of the block: it is hashed into the other buffer, and the two change
        places. */
    method CompleteBlock(d: Bytes)
      requires Valid() && |d| == 32 - curPos
      modifies this, curBuf, result
      ensures Valid() && message == old(message) + d
      ensures curBuf == old(result) && result == old(curBuf)
    {
      ghost var s := Sponge(curBuf[..], curPos);
      VerusMiner.Write(curBuf, 32 + curPos, d);
      ghost var block := curBuf[..];
      assert block == s.buf[..32 + s.at] + d;
      var h := c.haraka512(curBuf[..]);
      VerusMiner.Write(result, 0, h);
      assert result[..][..32] == h;
      BlockHashed(c, message, s, d, block, result[..]);
      curBuf, result := result, curBuf;
      curPos, message := 0, message + d;
    }

    method Keep(d: Bytes)
      requires Valid() && |d| < 32 - curPos
      modifies this, curBuf
      ensures Valid() && message == old(message) + d
      ensures curBuf == old(curBuf) && result == old(result)
    {
      ghost var s := Sponge(curBuf[..], curPos);
      VerusMiner.Write(curBuf, 32 + curPos, d);
      assert curBuf[..][..32 + s.at + |d|] == s.buf[..32 + s.at] + d;
      BytesKept(c, message, s, d, curBuf[..]);
      curPos, message := curPos + |d|, message + d;
    }

    /** `write`. */
    method Write(data: Bytes)
      requires Valid()
      modifies this, curBuf, result
      ensures Valid() && message == old(message) + data
      ensures {curBuf, result} == old({curBuf, result})
    {
      var pos := 0;
      while pos < |data|
        invariant Valid() && pos <= |data| && message == old(message) + data[..pos]
        invariant {curBuf, result} == old({curBuf, result})
        decreases |data| - pos
      {
        var room := 32 - curPos;
        var next := if |data| - pos >= room then pos + room else |data|;
        if next - pos == room {
          CompleteBlock(data[pos..next]);
        } else {
          Keep(data[pos..next]);
        }
        WrittenSoFar(old(message), data, pos, next);
        pos := next;
      }
      assert data[..|data|] == data;
    }

    method WriteAll(pieces: seq<Bytes>)
      requires Valid() && message == []
      modifies this, curBuf, result
      ensures Valid() && message == Concat(pieces)
      ensures {curBuf, result} == old({curBuf, result})
    {
      for i := 0 to |pieces|
        invariant Valid() && message == Concat(pieces[..i])
        invariant {curBuf, result} == old({curBuf, result})
      {
        ConcatNext(pieces, i);
        Write(pieces[i]);
      }
      assert pieces[..|pieces|] == pieces;
    }

    /** `FillExtra`: the rest of the upper half is filled with the data, repeated. */
    method FillExtra(data: Bytes)
      requires curBuf.Length == 64 && curPos < 32 && |data| > 0
      modifies curBuf
      ensures curBuf[..] == old(curBuf[..32 + curPos]) + Filled(data, 32 - curPos)
    {
      ghost var front := curBuf[..32 + curPos];
      ghost var target := front + Filled(data, 32 - curPos);
      var pos, left := curPos, 32 - curPos;
      while left > 0
        invariant pos + left == 32 && curPos <= pos <= 32
        invariant curBuf[..32 + pos] + Filled(data, left) == target
        decreases left
      {
        var len := if left > |data| then |data| else left;
        ghost var done := curBuf[..32 + pos];
        VerusMiner.Write(curBuf, 32 + pos, data[..len]);
        FilledNext(data, left, len);
        Associate(done, data[..len], Filled(data, left - len));
        assert curBuf[..32 + pos + len] == done + data[..len];
        pos := pos + len;
        left := left - len;
      }
      assert curBuf[..64] + [] == curBuf[..];
    }

    /** What has been written stays as it is. */
    method FillUp(data: Bytes)
      requires Valid() && |data| > 0
      modifies curBuf
      ensures Valid() && curBuf[..] == Buffer(c, message, data) && curBuf[..][..32] == Chain(c, Whole(message))
    {
      ghost var s := Sponge(curBuf[..], curPos);
      FillExtra(data);
      FilledUp(c, message, s, data, curBuf[..]);
    }

    /** `finalize`: the hash of everything written. */
    method Finalize(v22: bool) returns (hash: Block32)
      requires Valid()
      modifies curBuf
      ensures Valid() && hash == VerusHash(c, v22, rounds, message)
    {
      FirstBytes(c, message, Sponge(curBuf[..], curPos));
      FillUp(curBuf[..16]);
      var acc, key := HashBuffer(v22, curBuf[..], message);
      var x := c.reduce(c.o.xor(acc, c.lengthHash));
      FillUp(LittleEndian(x, 8));
      hash := c.haraka512Keyed(curBuf[..], key[x % 512..x % 512 + 40]);
    }

    /** A key of its own for this hash, and the rounds on it. */
    method HashBuffer(v22: bool, buf: Bytes, ghost m: Bytes) returns (acc: V, key: seq<V>)
      requires 2 * rounds < SCRATCH
      requires buf == Buffer(c, m, Chain(c, Whole(m))[..16])
      ensures var t := VerusTrace(c, v22, rounds, m); acc == t.acc && key == t.key
    {
      var k, scratch := new V[KEY_BLOCKS + REFRESH], new Pointer[SCRATCH](_ => Null);
      var seed: Block32 := buf[..32];
      assert seed == Chain(c, Whole(m));
      FillKey(c, k, seed);
      acc := Repeat(c.o, v22, k, scratch, Pbufs(c, buf), rounds);
      key := k[..];
    }
  }

  lemma FilledNext(data: Bytes, left: nat, len: nat)
    requires |data| > 0 && left > 0 && len == if left > |data| then |data| else left
    ensures Filled(data, left) == data[..len] + Filled(data, left - len)
  {
    assert data[..|data|] == data;
  }

  lemma WrittenSoFar(m: Bytes, data: Bytes, pos: nat, next: nat)
    requires pos <= next <= |data|
    ensures m + data[..pos] + data[pos..next] == m + data[..next]
  {
    assert data[..pos] + data[pos..next] == data[..next];
    Associate(m, data[..pos], data[pos..next]);
  }

  lemma ConcatNext(pieces: seq<Bytes>, i: nat)
    requires i < |pieces|
    ensures Concat(pieces[..i + 1]) == Concat(pieces[..i]) + pieces[i]
  {
    assert pieces[..i + 1][..i] == pieces[..i];
  }

  /** However a message is cut into writes, the result is the hash of the whole. */
  method HashPieces<V(0)>(c: Crypto<V>, v22: bool, rounds: nat, pieces: seq<Bytes>) returns (hash: Block32)
    requires 2 * rounds < SCRATCH
    ensures hash == VerusHash(c, v22, rounds, Concat(pieces))
  {
    var h := new Hasher(c, rounds);
    h.WriteAll(pieces);
    hash := h.Finalize(v22);
  }
}
