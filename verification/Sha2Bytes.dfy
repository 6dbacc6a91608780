/** Bytes and words: the big-endian words of FIPS 180-4 against the memory of a little-endian machine,
    which the byte reversals of the sources turn into each other. */
module Sha2Bytes {
  import opened MachineWords

  predicate WordSize(w: nat) {
    w == 4 || w == 8
  }

  /** n bytes are a whole number of words. */
  predicate WholeWords(n: nat, w: nat) {
    if w == 4 then n % 4 == 0 else n % 8 == 0
  }

  /** The big-endian number the bytes spell. */
  function Number(b: Bytes): nat {
    if b == [] then 0 else Number(b[..|b| - 1]) * 256 + b[|b| - 1]
  }

  /** The number four bytes spell, the first one on top. */
  lemma NumberOfFour(b: Bytes)
    requires |b| == 4
    ensures Number(b)
         == 0x100_0000 * (b[0] as int) + 0x1_0000 * (b[1] as int) + 0x100 * (b[2] as int) + (b[3] as int)
  {
    assert b[..3][..2] == b[..2] && b[..2][..1] == b[..1] && b[..1][..0] == [];
    assert Number(b[..1]) == b[0] && Number(b[..2]) == 0x100 * (b[0] as int) + (b[1] as int);
    assert Number(b[..3]) == 0x1_0000 * (b[0] as int) + 0x100 * (b[1] as int) + (b[2] as int);
  }

  /** The last n bytes of the big-endian representation of x. */
  function BigEndian(x: int, n: nat): (b: Bytes)
    ensures |b| == n
    decreases n
  {
    if n == 0 then [] else BigEndian(x / 256, n - 1) + [x % 256]
  }

  /** The big-endian words of w bytes each. */
  function Words(b: Bytes, w: nat): (ws: seq<int>)
    requires WordSize(w)
    decreases |b|
  {
    if |b| < w then [] else [Number(b[..w])] + Words(b[w..], w)
  }

  lemma {:induction false} WordsCount(b: Bytes, w: nat, n: nat)
    requires WordSize(w) && |b| == if w == 4 then 4 * n else 8 * n
    ensures |Words(b, w)| == n
    decreases n
  {
    if n > 0 {
      WordsCount(b[w..], w, n - 1);
    }
  }

  lemma {:induction false} WordsJoin(a: Bytes, b: Bytes, w: nat)
    requires WordSize(w) && WholeWords(|a|, w)
    ensures Words(a + b, w) == Words(a, w) + Words(b, w)
    decreases |a|
  {
    if |a| < w {
      assert a + b == b;
    } else {
      assert (a + b)[..w] == a[..w] && (a + b)[w..] == a[w..] + b;
      WordsJoin(a[w..], b, w);
    }
  }

  lemma NextWordFits(j: nat, k: nat, w: nat)
    requires WordSize(w) && WholeWords(j, w) && WholeWords(k, w) && j < k
    ensures j + w <= k && WholeWords(j + w, w)
  {
    if w == 4 { NextFourFit(j, k); } else { NextEightFit(j, k); }
  }

  lemma NextFourFit(j: nat, k: nat)
    requires j % 4 == 0 && k % 4 == 0 && j < k
    ensures j + 4 <= k && (j + 4) % 4 == 0
  {
  }

  lemma NextEightFit(j: nat, k: nat)
    requires j % 8 == 0 && k % 8 == 0 && j < k
    ensures j + 8 <= k && (j + 8) % 8 == 0
  {
  }

  lemma WordLess(n: nat, w: nat)
    requires WordSize(w) && WholeWords(n, w)
    ensures if n < w then n == 0 else WholeWords(n - w, w)
  {
  }

  /** The value of the word whose bytes lie in memory as b. */
  function Host(b: Bytes): nat {
    if b == [] then 0 else b[0] + 256 * Host(b[1..])
  }

  function HostWords(b: Bytes, w: nat): (ws: seq<int>)
    requires WordSize(w)
    decreases |b|
  {
    if |b| < w then [] else [Host(b[..w])] + HostWords(b[w..], w)
  }

  /** x without its last n bytes. */
  function Top(x: int, n: nat): int
    decreases n
  {
    if n == 0 then x else Top(x / 256, n - 1)
  }

  /** What REVERSE32 and REVERSE64 do to a word's bytes in memory. */
  function Reversed(b: Bytes): (r: Bytes)
    ensures |r| == |b|
  {
    if b == [] then [] else [b[|b| - 1]] + Reversed(b[..|b| - 1])
  }

  lemma {:induction false} HostOfReversed(b: Bytes)
    ensures Host(Reversed(b)) == Number(b)
  {
    if b != [] {
      HostOfReversed(b[..|b| - 1]);
      assert Reversed(b)[1..] == Reversed(b[..|b| - 1]);
    }
  }

  lemma {:induction false} HostOfLittleEndian(x: int, n: nat)
    requires Top(x, n) == 0
    ensures Host(LittleEndian(x, n)) == x
    decreases n
  {
    if n > 0 {
      HostOfLittleEndian(x / 256, n - 1);
      assert LittleEndian(x, n)[1..] == LittleEndian(x / 256, n - 1);
    }
  }

  lemma {:induction false} NumberOfBigEndian(x: int, n: nat)
    requires Top(x, n) == 0
    ensures Number(BigEndian(x, n)) == x
    decreases n
  {
    if n > 0 {
      NumberOfBigEndian(x / 256, n - 1);
      assert BigEndian(x, n)[..n - 1] == BigEndian(x / 256, n - 1);
    }
  }

  /** A reversed state word lies in memory in big-endian order, which is how the digest is written. */
  lemma {:induction false} ReversedLittleEndian(x: int, n: nat)
    ensures Reversed(LittleEndian(x, n)) == BigEndian(x, n)
    decreases n
  {
    if n > 0 {
      ReversedLittleEndian(x / 256, n - 1);
      ReversedPrepend(x % 256, LittleEndian(x / 256, n - 1));
    }
  }

  lemma {:induction false} ReversedPrepend(a: Byte, b: Bytes)
    ensures Reversed([a] + b) == Reversed(b) + [a]
    decreases |b|
  {
    if b == [] {
      assert [a] + b == [a];
      assert Reversed([a][..0]) == [];
    } else {
      var c := b[..|b| - 1];
      ReversedPrepend(a, c);
      assert ([a] + b)[..|b|] == [a] + c;
    }
  }

  /** hi shifted left by n bytes. */
  function Raise(hi: int, n: nat): int {
    if n == 0 then hi else 256 * Raise(hi, n - 1)
  }

  lemma {:induction false} TopSmall(x: int, n: nat)
    requires 0 <= x < Raise(1, n)
    ensures Top(x, n) == 0
    decreases n
  {
    if n > 0 {
      TopSmall(x / 256, n - 1);
    }
  }

  lemma LastByte(lo: int, r: int)
    ensures (lo + 256 * r) / 256 == lo / 256 + r && (lo + 256 * r) % 256 == lo % 256
  {
  }

  lemma {:induction false} BigEndianJoin(hi: int, lo: int, k: nat, n: nat)
    requires Top(lo, n) == 0
    ensures BigEndian(lo + Raise(hi, n), k + n) == BigEndian(hi, k) + BigEndian(lo, n)
    decreases n
  {
    if n > 0 {
      BigEndianJoin(hi, lo / 256, k, n - 1);
      LastByte(lo, Raise(hi, n - 1));
    }
  }

  lemma RaiseTwo(hi: int, n: nat)
    ensures Raise(hi, n + 2) == 0x1_0000 * Raise(hi, n)
  {
    assert Raise(hi, n + 1) == 256 * Raise(hi, n);
  }

  lemma RaiseFour(hi: int, n: nat)
    ensures Raise(hi, n + 4) == TWO32 * Raise(hi, n)
  {
    RaiseTwo(hi, n);
    RaiseTwo(hi, n + 2);
  }

  /** The range of a word is 256 to the power w. */
  lemma RaiseWord(hi: int, w: nat)
    requires WordSize(w)
    ensures Raise(hi, w) == if w == 4 then TWO32 * hi else TWO64 * hi
  {
    RaiseFour(hi, 0);
    RaiseFour(hi, 4);
  }

  lemma WordsFirst(a: Bytes, b: Bytes, w: nat)
    requires WordSize(w) && |a| == w
    ensures Words(a + b, w) == [Number(a)] + Words(b, w)
    ensures HostWords(a + b, w) == [Host(a)] + HostWords(b, w)
  {
    assert (a + b)[..w] == a && (a + b)[w..] == b;
  }

  /** The counter's two words, stored in host order, are the two big-endian words of the length. */
  lemma LengthWords(hi: nat, lo: nat, w: nat)
    requires WordSize(w) && hi < Raise(1, w) && lo < Raise(1, w)
    ensures Words(BigEndian(lo + Raise(hi, w), 2 * w), w) == [hi, lo]
    ensures HostWords(LittleEndian(hi, w) + LittleEndian(lo, w), w) == [hi, lo]
  {
    TopSmall(hi, w);
    TopSmall(lo, w);
    BigEndianJoin(hi, lo, w, w);
    NumberOfBigEndian(hi, w);
    NumberOfBigEndian(lo, w);
    assert BigEndian(lo + Raise(hi, w), w + w) == BigEndian(lo + Raise(hi, w), 2 * w);
    HostOfLittleEndian(hi, w);
    HostOfLittleEndian(lo, w);
    TwoWords(BigEndian(hi, w), BigEndian(lo, w), w);
    TwoWords(LittleEndian(hi, w), LittleEndian(lo, w), w);
  }

  lemma TwoWords(a: Bytes, b: Bytes, w: nat)
    requires WordSize(w) && |a| == |b| == w
    ensures Words(a + b, w) == [Number(a), Number(b)]
    ensures HostWords(a + b, w) == [Host(a), Host(b)]
  {
    WordsFirst(a, b, w);
    WordsFirst(b, [], w);
    assert b + [] == b;
  }

  /** Bytes turned from message order to host order, word by word. */
  function Swapped(b: Bytes, w: nat): (r: Bytes)
    requires WordSize(w)
    ensures |r| == |b|
    decreases |b|
  {
    if |b| < w then b else Reversed(b[..w]) + Swapped(b[w..], w)
  }

  lemma SwappedFirst(first: Bytes, rest: Bytes, w: nat)
    requires WordSize(w) && |first| == w
    ensures Swapped(first + rest, w) == Reversed(first) + Swapped(rest, w)
  {
    var all := first + rest;
    assert all[..w] == first && all[w..] == rest;
  }

  lemma SwappedWord(b: Bytes, w: nat)
    requires WordSize(w) && |b| == w
    ensures Swapped(b, w) == Reversed(b)
  {
    SwappedFirst(b, [], w);
    assert b + [] == b;
  }

  lemma SwappedGrows(first: Bytes, rest: Bytes, b: Bytes, w: nat)
    requires WordSize(w) && |first| == w && Swapped(rest + b, w) == Swapped(rest, w) + Reversed(b)
    ensures Swapped(first + rest + b, w) == Swapped(first + rest, w) + Reversed(b)
  {
    SwappedFirst(first, rest, w);
    SwappedFirst(first, rest + b, w);
    Associate(first, rest, b);
    Associate(Reversed(first), Swapped(rest, w), Reversed(b));
  }

  lemma {:induction false} SwappedNext(a: Bytes, b: Bytes, w: nat)
    requires WordSize(w) && WholeWords(|a|, w) && |b| == w
    ensures Swapped(a + b, w) == Swapped(a, w) + Reversed(b)
    decreases |a|
  {
    WordLess(|a|, w);
    if |a| < w {
      assert a + b == b && Swapped(a, w) == [];
      SwappedWord(b, w);
    } else {
      SwappedNext(a[w..], b, w);
      SwappedGrows(a[..w], a[w..], b, w);
      assert a[..w] + a[w..] == a;
    }
  }

  lemma {:induction false} HostWordsJoin(a: Bytes, b: Bytes, w: nat)
    requires WordSize(w) && WholeWords(|a|, w)
    ensures HostWords(a + b, w) == HostWords(a, w) + HostWords(b, w)
    decreases |a|
  {
    if |a| < w {
      assert a + b == b;
    } else {
      assert (a + b)[..w] == a[..w] && (a + b)[w..] == a[w..] + b;
      HostWordsJoin(a[w..], b, w);
    }
  }

  /** After the byte reversal the transform reads the big-endian words of FIPS 180-4. */
  lemma {:induction false} SwappedReadsWords(b: Bytes, w: nat)
    requires WordSize(w) && WholeWords(|b|, w)
    ensures HostWords(Swapped(b, w), w) == Words(b, w)
    decreases |b|
  {
    if |b| >= w {
      SwappedReadsWords(b[w..], w);
      HostOfReversed(b[..w]);
      WordsFirst(Reversed(b[..w]), Swapped(b[w..], w), w);
    }
  }
}
