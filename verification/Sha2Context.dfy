/** The streaming contexts: SHA1_CTX, SHA256_CTX and SHA512_CTX with their Update and Final. */
module Sha2Context {
  import opened MachineWords
  import opened ReverseMacros
  import opened Sha2Bytes
  import opened Sha2Schedule
  import opened Sha2Stream

  /** memcpy to the buffer's bytes from position at. */
  method CopyIn(a: array<Byte>, at: nat, d: Bytes)
    requires at + |d| <= a.Length
    modifies a
    ensures a[..] == old(a[..at]) + d + old(a[at + |d|..])
  {
    forall k | 0 <= k < |d| {
      a[at + k] := d[k];
    }
    assert forall k :: at <= k < at + |d| ==> a[..][k] == d[k - at];
  }

  /** The loop over REVERSE32 or REVERSE64 that turns k bytes of the buffer to host order, in place. */
  method Reverse(a: array<Byte>, w: nat, k: nat)
    requires WordSize(w) && WholeWords(k, w) && k <= a.Length
    modifies a
    ensures a[..] == Swapped(old(a[..k]), w) + old(a[k..])
  {
    ghost var was := a[..];
    var j := 0;
    while j < k
      invariant j <= k && WholeWords(j, w)
      invariant a[..] == Swapped(was[..j], w) + was[j..]
      decreases k - j
    {
      NextWordFits(j, k, w);
      ReverseNext(was, w, j);
      MacroReverses(a[j..j + w], w);
      CopyIn(a, j, ApplyReverse(a[j..j + w], w));
      j := j + w;
    }
  }

  lemma ReverseNext(was: Bytes, w: nat, j: nat)
    requires WordSize(w) && WholeWords(j, w) && j + w <= |was|
    ensures var now := Swapped(was[..j], w) + was[j..];
            now[..j] + Reversed(now[j..j + w]) + now[j + w..] == Swapped(was[..j + w], w) + was[j + w..]
  {
    var done, word, tail := was[..j], was[j..j + w], was[j + w..];
    SwappedNext(done, word, w);
    Cut(was, j, w);
    Splice(Swapped(done, w), word, tail);
  }

  lemma Cut(b: Bytes, j: nat, w: nat)
    requires j + w <= |b|
    ensures b[..j + w] == b[..j] + b[j..j + w] && b[j..] == b[j..j + w] + b[j + w..]
  {
  }

  lemma Splice(p: Bytes, word: Bytes, tail: Bytes)
    ensures var b := p + (word + tail);
            b[..|p|] == p && b[|p|..|p| + |word|] == word && b[|p| + |word|..] == tail
  {
  }

  method TwoWordsInHostOrder(w: nat, high: nat, low: nat, ghost count: nat) returns (b: Bytes)
    requires WordSize(w) && high < Raise(1, w) && low < Raise(1, w) && count == low + Raise(high, w)
    ensures |b| == 2 * w && HostWords(b, w) == Words(BigEndian(count, 2 * w), w)
  {
    LengthWords(high, low, w);
    b := LittleEndian(high, w) + LittleEndian(low, w);
  }

  class Context<S> {
    const h: Hash<S>
    var state: S
    var lo: nat
    var hi: nat
    const buffer: array<Byte>
    /** Everything the context was given since it was initialised. */
    ghost var message: Bytes

    /** The state has absorbed the whole blocks, the buffer starts with what they leave over, and the
        counter holds the length in bits. */
    ghost predicate Valid()
      reads this, buffer
    {
      Sized() && Counted()
      && state == Absorb(h, h.init, Whole(h, message))
      && buffer[..Left(h, |message|)] == Rest(h, message)
    }

    ghost predicate Sized()
      reads this
    {
      Proper(h) && buffer.Length == Block(h)
    }

    ghost predicate Counted()
      requires Proper(h)
      reads this
    {
      lo < TWO64 && hi < TWO64 && (h.wordBytes == 4 ==> hi == 0)
      && lo + TWO64 * hi == 8 * |message| % CountMod(h)
    }

    constructor (h: Hash<S>)
      requires Proper(h)
      ensures Valid() && message == [] && this.h == h && fresh(buffer)
    {
      this.h := h;
      state := h.init;
      lo, hi := 0, 0;
      buffer := new Byte[Block(h)](_ => 0);
      message := [];
    }

    /** bitcount += n << 3, or ADDINC128 of it. */
    method AddCount(ghost d: Bytes, n: nat)
      requires Proper(h) && Counted() && n == |d| <= Block(h)
      modifies this`lo, this`hi, this`message
      ensures Counted() && message == old(message) + d
    {
      CountAdds(h, |message|, n);
      if h.wordBytes == 8 {
        AddInc128Adds(lo, hi, 8 * n);
        var sum := AddInc128(lo, hi, 8 * n);
        lo, hi := sum.0, sum.1;
      } else {
        lo := (lo + 8 * n) % TWO64;
      }
      message := message + d;
    }

    /** Reverse the buffer's words in place and compress them. */
    method Process()
      requires Sized()
      modifies this`state, buffer
      ensures state == Compress(h.alg, old(state), BlockWords(h, old(buffer[..])))
    {
      ghost var block := buffer[..];
      SwappedReadsWords(block, h.wordBytes);
      ghost var swapped := Swapped(block, h.wordBytes);
      assert HostWords(swapped, h.wordBytes) == BlockWords(h, block);
      Reverse(buffer, h.wordBytes, buffer.Length);
      assert block[..|block|] == block;
      assert buffer[..] == swapped;
      state := Transform(h.alg, state, HostWords(buffer[..], h.wordBytes));
    }

    method SaveLeftOver(used: nat, d: Bytes)
      requires Valid() && used == Left(h, |message|) && used + |d| < Block(h)
      modifies this, buffer
      ensures Valid() && message == old(message) + d
    {
      LessThanABlockArrives(h, message, d);
      LeftAdds(h, |message|, |d|);
      CopyIn(buffer, used, d);
      AddCount(d, |d|);
      assert buffer[..used + |d|] == Rest(h, message);
    }

    method CompleteBlock(used: nat, d: Bytes)
      requires Valid() && used == Left(h, |message|) && used + |d| == Block(h)
      modifies this, buffer
      ensures Valid() && message == old(message) + d
    {
      ABlockIsCompleted(h, message, d);
      LeftAdds(h, |message|, |d|);
      CopyIn(buffer, used, d);
      AddCount(d, |d|);
      assert buffer[..] == Rest(h, old(message)) + d;
      Process();
    }

    method UsedSpace() returns (used: nat)
      requires Proper(h) && Counted()
      ensures used == Left(h, |message|)
    {
      UsedFromCount(h, |message|, lo, hi);
      used := Left(h, lo / 8);
    }

    /** The data fills the buffer up to a block. */
    method TakeBlock(used: nat, data: Bytes) returns (rest: Bytes)
      requires Valid() && used == Left(h, |message|) && |data| >= Block(h) - used
      modifies this, buffer
      ensures Valid() && Left(h, |message|) == 0 && |rest| < |data|
      ensures message + rest == old(message) + data
    {
      var free := Block(h) - used;
      ghost var len, was := |message| + free, message;
      LeftAdds(h, |was|, free);
      assert Left(h, len) == 0;
      CompleteBlock(used, data[..free]);
      rest := data[free..];
      assert |message| == len;
      Associate(was, data[..free], rest);
      assert data[..free] + rest == data;
    }

    /** As many complete blocks as there are. */
    method TakeBlocks(data: Bytes) returns (rest: Bytes)
      requires Valid() && Left(h, |message|) == 0
      modifies this, buffer
      ensures Valid() && Left(h, |message|) == 0 && |rest| < Block(h)
      ensures message + rest == old(message) + data
    {
      rest := data;
      while |rest| >= Block(h)
        invariant Valid() && Left(h, |message|) == 0
        invariant message + rest == old(message) + data
      {
        rest := TakeBlock(0, rest);
      }
    }

    /** sha1_Update, sha256_Update and sha512_Update. */
    method Update(data: Bytes)
      requires Valid()
      modifies this, buffer
      ensures Valid() && message == old(message) + data
    {
      if |data| == 0 {
        return;
      }
      var used := UsedSpace();
      var rest := data;
      if used > 0 {
        if |rest| < Block(h) - used {
          SaveLeftOver(used, rest);
          return;
        }
        rest := TakeBlock(used, rest);
      }
      rest := TakeBlocks(rest);
      if |rest| > 0 {
        SaveLeftOver(0, rest);
      } else {
        assert message == message + rest;
      }
    }

    /** The counter as two words in host order. */
    method CounterWords() returns (b: Bytes)
      requires Proper(h) && Counted()
      ensures |b| == 2 * h.wordBytes
      ensures HostWords(b, h.wordBytes) == Words(LengthBytes(h, message), h.wordBytes)
    {
      WordsOfCounter(h, lo, hi);
      b := TwoWordsInHostOrder(h.wordBytes, HighWord(h, lo, hi), LowWord(h, lo, hi), lo + TWO64 * hi);
    }

    /** Reverse the fourteen words of the block's body, put the counter behind them, compress. */
    method LastBlock(ghost body: Bytes, ghost length: Bytes, counter: Bytes)
      requires Sized() && |body| == Short(h) && buffer[..Short(h)] == body
      requires |length| == |counter| == 2 * h.wordBytes
      requires HostWords(counter, h.wordBytes) == Words(length, h.wordBytes)
      modifies this`state, buffer
      ensures state == Absorb(h, old(state), body + length)
    {
      BodyAndCounter(body, counter, length, h.wordBytes);
      AbsorbOne(h, state, body + length);
      ghost var read := Swapped(body, h.wordBytes) + counter;
      assert HostWords(read, h.wordBytes) == BlockWords(h, body + length);
      Reverse(buffer, h.wordBytes, Short(h));
      CopyIn(buffer, Short(h), counter);
      assert buffer[..] == read;
      state := Transform(h.alg, state, HostWords(buffer[..], h.wordBytes));
    }

    /** Where the length no longer fits, the block with the one bit is compressed by itself. */
    method CloseBlock(used: nat)
      requires Valid() && used == Left(h, |message|) + 1 && used > Short(h)
      requires buffer[..used] == Rest(h, message) + [0x80]
      modifies this`state, buffer
      ensures Absorb(h, h.init, Pad(h, message))
           == Absorb(h, state, Zeros(Short(h)) + LengthBytes(h, message))
    {
      ghost var first := Rest(h, message) + [0x80] + Zeros(Block(h) - used);
      TwoFinalBlocks(h, message, first);
      CopyIn(buffer, used, Zeros(Block(h) - used));
      assert buffer[..] == first;
      Process();
    }

    /** The padding and the last one or two blocks. */
    method Finish()
      requires Valid()
      modifies this`state, buffer
      ensures state == Absorb(h, h.init, Pad(h, message))
    {
      var used := UsedSpace();
      CopyIn(buffer, used, [0x80]);
      used := used + 1;
      assert buffer[..used] == Rest(h, message) + [0x80];
      ghost var body := Zeros(Short(h));
      if used > Short(h) {
        CloseBlock(used);
        used := 0;
      } else {
        body := Rest(h, message) + [0x80] + Zeros(Short(h) - used);
        OneFinalBlock(h, message, body);
      }
      CopyIn(buffer, used, Zeros(Short(h) - used));
      assert buffer[..Short(h)] == body;
      var counter := CounterWords();
      LastBlock(body, LengthBytes(h, message), counter);
    }

    /** sha1_Final, sha256_Final and sha512_Final: the digest is the state's words, reversed. */
    method Final() returns (digest: Bytes)
      requires Valid()
      modifies this`state, buffer
      ensures digest == Digest(h, message)
    {
      Finish();
      digest := Written(h.digest(state), h.wordBytes);
    }
  }

  /** The words, reversed and copied out one by one. */
  method Written(words: seq<int>, w: nat) returns (bytes: Bytes)
    ensures bytes == Serialize(words, w)
  {
    bytes := [];
    for j := 0 to |words|
      invariant bytes == Serialize(words[..j], w)
    {
      ReversedLittleEndian(words[j], w);
      assert words[..j + 1][..j] == words[..j];
      bytes := bytes + Reversed(LittleEndian(words[j], w));
    }
    assert words[..|words|] == words;
  }

  /** However a message is cut into calls of Update, Final yields the digest of the whole. */
  method HashPieces<S>(h: Hash<S>, pieces: seq<Bytes>) returns (digest: Bytes)
    requires Proper(h)
    ensures digest == Digest(h, Concat(pieces))
  {
    var context := new Context(h);
    for j := 0 to |pieces|
      invariant context.Valid() && context.message == Concat(pieces[..j])
      invariant fresh(context) && fresh(context.buffer) && context.h == h
    {
      assert pieces[..j + 1][..j] == pieces[..j];
      context.Update(pieces[j]);
    }
    assert pieces[..|pieces|] == pieces;
    digest := context.Final();
  }
}
