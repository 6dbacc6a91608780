/** Hashing a message that arrives in pieces: the buffer, the bit counter, and the padding in one or
    two final blocks.  The contexts of SHA-1, SHA-256 and SHA-512 differ in the size of a word and in
    the compression function only.  The machine is little-endian, as the sources take it to be. */
module Sha2Stream {
  import opened MachineWords
  import opened Sha2Bytes
  import opened Sha2Schedule

  /** Bytes per word, the compression function, the initial state, and the words of the state that
      make up the digest. */
  datatype Hash<!S> = Hash(wordBytes: nat, alg: Alg<S>, init: S, digest: S -> seq<int>)

  predicate Proper<S>(h: Hash<S>) {
    WordSize(h.wordBytes) && WellFormed(h.alg)
  }

  /** The bytes of a block, SHA256_BLOCK_LENGTH and its like. */
  function Block<S>(h: Hash<S>): nat {
    16 * h.wordBytes
  }

  /** The bytes left over after the whole blocks among n bytes: n mod Block. */
  function Left<S>(h: Hash<S>, n: nat): (r: nat)
    requires Proper(h)
    ensures r < Block(h)
  {
    if h.wordBytes == 4 then n % 64 else n % 128
  }

  lemma LeftAdds<S>(h: Hash<S>, n: nat, d: nat)
    requires Proper(h) && Left(h, n) + d <= Block(h)
    ensures Left(h, n + d) == if Left(h, n) + d == Block(h) then 0 else Left(h, n) + d
  {
    if h.wordBytes == 4 {
      AddMod64(n, d, n / 64, n % 64);
    } else {
      AddMod128(n, d, n / 128, n % 128);
    }
  }

  lemma AddMod64(n: nat, d: nat, q: nat, r: nat)
    requires n == 64 * q + r && r + d <= 64
    ensures (n + d) % 64 == if r + d == 64 then 0 else r + d
  {
  }

  lemma AddMod128(n: nat, d: nat, q: nat, r: nat)
    requires n == 128 * q + r && r + d <= 128
    ensures (n + d) % 128 == if r + d == 128 then 0 else r + d
  {
  }

  /** n + d fills whole blocks when what n leaves over and d together make one block or two. */
  lemma LeftVanishes<S>(h: Hash<S>, n: nat, d: nat)
    requires Proper(h) && (Left(h, n) + d == 0 || Left(h, n) + d == Block(h) || Left(h, n) + d == 2 * Block(h))
    ensures Left(h, n + d) == 0
  {
    if Left(h, n) + d == 2 * Block(h) {
      LeftAdds(h, n, Block(h) - Left(h, n));
      LeftAdds(h, n + Block(h) - Left(h, n), Block(h));
    } else {
      LeftAdds(h, n, d);
    }
  }

  lemma LeftDrops<S>(h: Hash<S>, n: nat)
    requires Proper(h) && n >= Block(h)
    ensures Left(h, n - Block(h)) == Left(h, n)
  {
    LeftAdds(h, n - Block(h), Block(h) - Left(h, n - Block(h)));
    LeftAdds(h, n - Left(h, n - Block(h)), Left(h, n - Block(h)));
  }

  /** The counter's range: 64 bits, or 128 bits for SHA-512. */
  function CountMod<S>(h: Hash<S>): nat {
    if h.wordBytes == 4 then TWO64 else TWO128
  }

  // ---------------------------------------------------------------- FIPS 180-4

  function BlockWords<S>(h: Hash<S>, b: Bytes): (ws: seq<int>)
    requires Proper(h) && |b| == Block(h)
    ensures |ws| == 16
  {
    WordsCount(b, h.wordBytes, 16);
    Words(b, h.wordBytes)
  }

  /** Compressing the message's full blocks one after the other (sections 6.1 to 6.4). */
  function Absorb<S>(h: Hash<S>, s: S, m: Bytes): S
    requires Proper(h)
    decreases |m|
  {
    if |m| < Block(h) then s
    else Absorb(h, Compress(h.alg, s, BlockWords(h, m[..Block(h)])), m[Block(h)..])
  }

  /** The number of zero bytes that makes message, one bit, zeros and length fill whole blocks. */
  function ZeroBytes<S>(h: Hash<S>, n: nat): (z: nat)
    requires Proper(h)
    ensures Left(h, n + 1 + z + 2 * h.wordBytes) == 0 && z < Block(h)
  {
    var used := Left(h, n) + 1 + 2 * h.wordBytes;
    var z := if used <= Block(h) then Block(h) - used else 2 * Block(h) - used;
    LeftVanishes(h, n, 1 + z + 2 * h.wordBytes);
    z
  }

  /** Padding to whole blocks (sections 5.1.1 and 5.1.2): a one bit, zeros, the length in bits. */
  function Pad<S>(h: Hash<S>, m: Bytes): Bytes
    requires Proper(h)
  {
    m + [0x80] + Zeros(ZeroBytes(h, |m|)) + BigEndian(8 * |m| % CountMod(h), 2 * h.wordBytes)
  }

  function Serialize(words: seq<int>, w: nat): Bytes {
    if words == [] then [] else Serialize(words[..|words| - 1], w) + BigEndian(words[|words| - 1], w)
  }

  function Digest<S>(h: Hash<S>, m: Bytes): Bytes
    requires Proper(h)
  {
    Serialize(h.digest(Absorb(h, h.init, Pad(h, m))), h.wordBytes)
  }

  lemma {:induction false} AbsorbJoin<S>(h: Hash<S>, s: S, a: Bytes, b: Bytes)
    requires Proper(h) && Left(h, |a|) == 0
    ensures Absorb(h, s, a + b) == Absorb(h, Absorb(h, s, a), b)
    decreases |a|
  {
    if |a| < Block(h) {
      assert a + b == b;
    } else {
      var n := Block(h);
      LeftDrops(h, |a|);
      assert (a + b)[..n] == a[..n] && (a + b)[n..] == a[n..] + b;
      AbsorbJoin(h, Compress(h.alg, s, BlockWords(h, a[..n])), a[n..], b);
    }
  }

  lemma AbsorbOne<S>(h: Hash<S>, s: S, b: Bytes)
    requires Proper(h) && |b| == Block(h)
    ensures Absorb(h, s, b) == Compress(h.alg, s, BlockWords(h, b))
  {
    var n := Block(h);
    var first, rest := b[..n], b[n..];
    assert first == b;
    assert |rest| < n;
  }

  // ---------------------------------------------------------------- the counter

  /** ADDINC128: the low word is added to, and a wrap is noticed because the sum is below the addend. */
  function AddInc128(lo: nat, hi: nat, n: nat): (nat, nat) {
    var lo' := (lo + n) % TWO64;
    (lo', if lo' < n then (hi + 1) % TWO64 else hi)
  }

  lemma AddInc128Adds(lo: nat, hi: nat, n: nat)
    requires lo < TWO64 && hi < TWO64 && n < TWO64
    ensures var (l, g) := AddInc128(lo, hi, n);
            l + TWO64 * g == (lo + TWO64 * hi + n) % TWO128 && l < TWO64 && g < TWO64
  {
    Carry(lo, n);
    var sum, total := lo + n, lo + TWO64 * hi + n;
    if sum < TWO64 {
      Wraps(total, total, 0);
    } else if hi + 1 < TWO64 {
      Wraps(total, sum - TWO64 + TWO64 * (hi + 1), 0);
    } else {
      Wraps(total, sum - TWO64, 1);
    }
  }

  lemma Carry(lo: nat, n: nat)
    requires lo < TWO64 && n < TWO64
    ensures (lo + n) % TWO64 == if lo + n < TWO64 then lo + n else lo + n - TWO64
    ensures (lo + n) % TWO64 < n <==> lo + n >= TWO64
  {
  }

  lemma Wraps(x: nat, r: nat, q: nat)
    requires x == r + TWO128 * q && r < TWO128
    ensures x % TWO128 == r
  {
  }

  lemma LowBytes(n: nat)
    ensures 8 * n % TWO64 / 8 % 64 == n % 64 && 8 * n % TWO64 / 8 % 128 == n % 128
  {
    LowPart(n, 8 * n / TWO64, 8 * n % TWO64);
  }

  lemma LowPart(n: nat, q: nat, r: nat)
    requires 8 * n == TWO64 * q + r
    ensures r / 8 % 64 == n % 64 && r / 8 % 128 == n % 128
  {
    var m := n - 0x2000_0000_0000_0000 * q;
    assert r / 8 == m;
    BlocksVanish(m, 0x40_0000_0000_0000 * q);
  }

  lemma BlocksVanish(m: nat, k: nat)
    ensures (m + 128 * k) % 64 == m % 64 && (m + 128 * k) % 128 == m % 128
  {
    Vanish64(m, 2 * k);
    Vanish128(m, k);
  }

  lemma Vanish64(m: nat, k: nat)
    ensures (m + 64 * k) % 64 == m % 64
  {
  }

  lemma Vanish128(m: nat, k: nat)
    ensures (m + 128 * k) % 128 == m % 128
  {
  }

  /** The position in the buffer, recovered from the low 64 bits of the counter. */
  lemma UsedFromCount<S>(h: Hash<S>, n: nat, lo: nat, hi: nat)
    requires Proper(h) && lo < TWO64 && (h.wordBytes == 4 ==> hi == 0)
    requires lo + TWO64 * hi == 8 * n % CountMod(h)
    ensures Left(h, lo / 8) == Left(h, n)
  {
    LowBytes(n);
    if h.wordBytes == 8 {
      LowHalf(8 * n, lo, hi);
    }
  }

  lemma LowHalf(x: nat, lo: nat, hi: nat)
    requires lo < TWO64 && lo + TWO64 * hi == x % TWO128
    ensures lo == x % TWO64
  {
    var k := x / TWO128;
    assert x == lo + TWO64 * (hi + TWO64 * k);
  }

  lemma CountAdds<S>(h: Hash<S>, n: nat, d: nat)
    requires Proper(h)
    ensures (8 * n % CountMod(h) + 8 * d) % CountMod(h) == 8 * (n + d) % CountMod(h)
  {
    if h.wordBytes == 4 {
      ModAdds(8 * n, 8 * d, 8 * n / TWO64, TWO64);
    } else {
      ModAdds(8 * n, 8 * d, 8 * n / TWO128, TWO128);
    }
  }

  lemma ModAdds(x: nat, y: nat, q: nat, m: nat)
    requires (m == TWO64 || m == TWO128) && q == x / m
    ensures (x % m + y) % m == (x + y) % m
  {
    if m == TWO64 {
      assert x + y == x % TWO64 + y + TWO64 * q;
    } else {
      assert x + y == x % TWO128 + y + TWO128 * q;
    }
  }

  // ---------------------------------------------------------------- a message arriving in pieces

  /** The whole blocks of a message. */
  function Whole<S>(h: Hash<S>, m: Bytes): Bytes
    requires Proper(h)
  {
    m[..|m| - Left(h, |m|)]
  }

  /** What the whole blocks leave over. */
  function Rest<S>(h: Hash<S>, m: Bytes): Bytes
    requires Proper(h)
  {
    m[|m| - Left(h, |m|)..]
  }

  lemma WholeAndRest<S>(h: Hash<S>, m: Bytes)
    requires Proper(h)
    ensures m == Whole(h, m) + Rest(h, m)
    ensures Left(h, |Whole(h, m)|) == 0 && |Rest(h, m)| == Left(h, |m|)
  {
    var n, r := |m|, Left(h, |m|);
    if h.wordBytes == 4 {
      AddMod64(n - r, 0, n / 64, 0);
    } else {
      AddMod128(n - r, 0, n / 128, 0);
    }
  }

  lemma LessThanABlockArrives<S>(h: Hash<S>, m: Bytes, d: Bytes)
    requires Proper(h) && Left(h, |m|) + |d| < Block(h)
    ensures Whole(h, m + d) == Whole(h, m) && Rest(h, m + d) == Rest(h, m) + d
  {
    LeftAdds(h, |m|, |d|);
    var k := |m| - Left(h, |m|);
    assert (m + d)[..k] == m[..k] && (m + d)[k..] == m[k..] + d;
  }

  lemma ABlockIsCompleted<S>(h: Hash<S>, m: Bytes, d: Bytes)
    requires Proper(h) && Left(h, |m|) + |d| == Block(h)
    ensures |Rest(h, m) + d| == Block(h) && Rest(h, m + d) == []
    ensures Absorb(h, h.init, Whole(h, m + d))
         == Compress(h.alg, Absorb(h, h.init, Whole(h, m)), BlockWords(h, Rest(h, m) + d))
  {
    WholeAndRest(h, m);
    LeftAdds(h, |m|, |d|);
    var whole, block := Whole(h, m), Rest(h, m) + d;
    assert Whole(h, m + d) == m + d == whole + block;
    AbsorbJoin(h, h.init, whole, block);
    AbsorbOne(h, Absorb(h, h.init, whole), block);
  }

  // ---------------------------------------------------------------- the final blocks

  /** The length's bytes, two words of them. */
  function LengthBytes<S>(h: Hash<S>, m: Bytes): (b: Bytes)
    requires Proper(h)
    ensures |b| == 2 * h.wordBytes
  {
    BigEndian(8 * |m| % CountMod(h), 2 * h.wordBytes)
  }

  /** SHA256_SHORT_BLOCK_LENGTH and its like. */
  function Short<S>(h: Hash<S>): nat {
    14 * h.wordBytes
  }

  /** Where the one bit leaves room for the length, one block ends the message. */
  lemma OneFinalBlock<S>(h: Hash<S>, m: Bytes, body: Bytes)
    requires Proper(h) && Left(h, |m|) + 1 <= Short(h)
    requires body == Rest(h, m) + [0x80] + Zeros(Short(h) - Left(h, |m|) - 1)
    ensures |body| == Short(h)
    ensures Absorb(h, h.init, Pad(h, m))
         == Absorb(h, Absorb(h, h.init, Whole(h, m)), body + LengthBytes(h, m))
  {
    PadOneBlock(h, m, Short(h) - Left(h, |m|) - 1);
    AbsorbJoin(h, h.init, Whole(h, m), body + LengthBytes(h, m));
  }

  lemma PadOneBlock<S>(h: Hash<S>, m: Bytes, n: nat)
    requires Proper(h) && Left(h, |m|) + 1 <= Short(h) && n == Short(h) - Left(h, |m|) - 1
    ensures |Rest(h, m) + [0x80] + Zeros(n)| == Short(h) && Left(h, |Whole(h, m)|) == 0
    ensures Pad(h, m) == Whole(h, m) + (Rest(h, m) + [0x80] + Zeros(n) + LengthBytes(h, m))
  {
    WholeAndRest(h, m);
    assert ZeroBytes(h, |m|) == n;
    assert Zeros(n) + [] == Zeros(n) && [] + LengthBytes(h, m) == LengthBytes(h, m);
    Regroup(Whole(h, m), Rest(h, m), [0x80], Zeros(n), [], LengthBytes(h, m));
  }

  lemma ZerosJoin(m: nat, n: nat)
    ensures Zeros(m + n) == Zeros(m) + Zeros(n)
  {
  }

  lemma Regroup(a: Bytes, b: Bytes, c: Bytes, d: Bytes, e: Bytes, f: Bytes)
    ensures a + b + c + (d + e) + f == a + ((b + c + d) + (e + f))
  {
  }

  /** Where it does not, a block of its own takes the one bit, and the length follows in another. */
  lemma TwoFinalBlocks<S>(h: Hash<S>, m: Bytes, first: Bytes)
    requires Proper(h) && Left(h, |m|) + 1 > Short(h)
    requires first == Rest(h, m) + [0x80] + Zeros(Block(h) - Left(h, |m|) - 1)
    ensures |first| == Block(h)
    ensures Absorb(h, h.init, Pad(h, m))
         == Absorb(h, Compress(h.alg, Absorb(h, h.init, Whole(h, m)), BlockWords(h, first)),
                   Zeros(Short(h)) + LengthBytes(h, m))
  {
    PadTwoBlocks(h, m, Block(h) - Left(h, |m|) - 1);
    AbsorbThrough(h, h.init, Whole(h, m), first, Zeros(Short(h)) + LengthBytes(h, m));
  }

  lemma AbsorbThrough<S>(h: Hash<S>, s: S, whole: Bytes, block: Bytes, last: Bytes)
    requires Proper(h) && Left(h, |whole|) == 0 && |block| == Block(h)
    ensures Absorb(h, s, whole + (block + last))
         == Absorb(h, Compress(h.alg, Absorb(h, s, whole), BlockWords(h, block)), last)
  {
    AbsorbJoin(h, s, whole, block + last);
    AbsorbJoin(h, Absorb(h, s, whole), block, last);
    AbsorbOne(h, Absorb(h, s, whole), block);
  }

  lemma PadTwoBlocks<S>(h: Hash<S>, m: Bytes, n: nat)
    requires Proper(h) && Left(h, |m|) + 1 > Short(h) && n == Block(h) - Left(h, |m|) - 1
    ensures |Rest(h, m) + [0x80] + Zeros(n)| == Block(h) && Left(h, |Whole(h, m)|) == 0
    ensures Pad(h, m) == Whole(h, m) + (Rest(h, m) + [0x80] + Zeros(n)
                                        + (Zeros(Short(h)) + LengthBytes(h, m)))
  {
    WholeAndRest(h, m);
    assert ZeroBytes(h, |m|) == n + Short(h);
    ZerosJoin(n, Short(h));
    Regroup(Whole(h, m), Rest(h, m), [0x80], Zeros(n), Zeros(Short(h)), LengthBytes(h, m));
  }

  /** The last block as the transform reads it: body turned to host order, then the counter's words. */
  lemma BodyAndCounter(body: Bytes, counter: Bytes, length: Bytes, w: nat)
    requires WordSize(w) && WholeWords(|body|, w) && HostWords(counter, w) == Words(length, w)
    ensures HostWords(Swapped(body, w) + counter, w) == Words(body + length, w)
  {
    HostWordsJoin(Swapped(body, w), counter, w);
    SwappedReadsWords(body, w);
    WordsJoin(body, length, w);
  }

  /** How Final cuts the counter into the two last words. */
  function HighWord<S>(h: Hash<S>, lo: nat, hi: nat): nat {
    if h.wordBytes == 4 then lo / TWO32 else hi
  }

  function LowWord<S>(h: Hash<S>, lo: nat, hi: nat): nat {
    if h.wordBytes == 4 then lo % TWO32 else lo
  }

  lemma WordsOfCounter<S>(h: Hash<S>, lo: nat, hi: nat)
    requires Proper(h) && lo < TWO64 && hi < TWO64 && (h.wordBytes == 4 ==> hi == 0)
    ensures HighWord(h, lo, hi) < Raise(1, h.wordBytes) && LowWord(h, lo, hi) < Raise(1, h.wordBytes)
    ensures LowWord(h, lo, hi) + Raise(HighWord(h, lo, hi), h.wordBytes) == lo + TWO64 * hi
  {
    RaiseWord(1, h.wordBytes);
    RaiseWord(HighWord(h, lo, hi), h.wordBytes);
  }
}
