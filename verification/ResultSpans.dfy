/** How the device's linear result buffer [count, pair, pair, ...] is split over the two pieces of a
    ring buffer, and how the pairs are found again.  Sizes are counted in 32-bit words. */
module ResultSpans {
  import opened MachineWords
  import opened Traversal
  import RingModel
  import RingTheorems

  /** The two copies `try_start` enqueues: the first piece takes the front of the device buffer, the
      second, if it is not empty, continues where the first stopped. */
  function Scatter(device: seq<u32>, n1: nat, n2: nat): (r: (seq<u32>, seq<u32>))
    requires n1 + n2 <= |device|
    ensures |r.0| == n1 && r.0 + r.1 == device[..n1 + n2]
  {
    (device[..n1], device[n1..n1 + n2])
  }

  /** `uint32_t(size)`: sizes have 64 bits, the count in the buffer only 32. */
  function Trunc(n: nat): u32 {
    n % TWO32
  }

  /** `nfirst` and `nsecond`: how many pairs are taken from each piece. */
  function PairsInFirst(count: u32, n1: nat): (n: nat)
    requires n1 % 2 == 1
    ensures 2 * n + 1 <= n1 && n <= count
  {
    Min(count, (Trunc(n1) - 1) / 2)
  }

  function PairsInSecond(count: u32, n1: nat, n2: nat): (n: nat)
    requires n1 % 2 == 1
    ensures 2 * n <= n2
  {
    var n := count - PairsInFirst(count, n1);
    if n > 0 && n2 > 0 then Min(n, Trunc(n2 / 2)) else 0
  }

  /** `2 * nsecond` is a product of 32-bit numbers, and may wrap.  (`2 * nfirst` is too, and cannot.) */
  function WordsInSecond(count: u32, n1: nat, n2: nat): (n: nat)
    requires n1 % 2 == 1
    ensures n % 2 == 0 && n <= n2
  {
    2 * PairsInSecond(count, n1, n2) % TWO32
  }

  /** `result_spans`: the words of the pairs in the first piece and in the second. */
  function Gather(first: seq<u32>, second: seq<u32>): (seq<u32>, seq<u32>)
    requires |first| % 2 == 1
  {
    (first[1..1 + 2 * PairsInFirst(first[0], |first|)],
     second[..WordsInSecond(first[0], |first|, |second|)])
  }

  /** `result_size`. */
  function ResultSize(first: seq<u32>, second: seq<u32>): nat
    requires |first| >= 1
  {
    Min(first[0], (|first| + |second|) / 2)
  }

  /** Where in the device buffer the gathered words come from. */
  function Positions(count: u32, n1: nat, n2: nat): seq<nat>
    requires n1 % 2 == 1
  {
    Range(1, 1 + 2 * PairsInFirst(count, n1)) + Range(n1, n1 + WordsInSecond(count, n1, n2))
  }

  /** The words of the two gathered spans together, when the device buffer has been read into pieces of
      these sizes. */
  function Gathered(device: seq<u32>, n1: nat, n2: nat): seq<u32>
    requires n1 % 2 == 1 && n1 + n2 <= |device|
  {
    var (a, b) := Scatter(device, n1, n2);
    var (p, q) := Gather(a, b);
    p + q
  }

  /** Splitting and gathering never cuts a pair, and selects the words at these positions. */
  lemma GatherSelects(device: seq<u32>, n1: nat, n2: nat)
    requires n1 % 2 == 1 && n2 % 2 == 0 && n1 + n2 <= |device|
    ensures var (a, b) := Scatter(device, n1, n2);
            var (p, q) := Gather(a, b);
            && |p| % 2 == 0 && |q| % 2 == 0 && p + q == Gathered(device, n1, n2)
    ensures Below(Positions(device[0], n1, n2), |device|)
    ensures Gathered(device, n1, n2) == Select(device, Positions(device[0], n1, n2))
  {
    var x, y := 1 + 2 * PairsInFirst(device[0], n1), n1 + WordsInSecond(device[0], n1, n2);
    SelectRange(device, 1, x);
    SelectRange(device, n1, y);
    SelectAppend(device, Range(1, x), Range(n1, y));
    GatheredSlices(device, n1, n2, x, y);
  }

  lemma GatheredSlices(device: seq<u32>, n1: nat, n2: nat, x: nat, y: nat)
    requires n1 % 2 == 1 && n1 + n2 <= |device|
    requires x == 1 + 2 * PairsInFirst(device[0], n1) && y == n1 + WordsInSecond(device[0], n1, n2)
    ensures Gathered(device, n1, n2) == Slice(device, 1, x) + Slice(device, n1, y)
  {
    var (a, b) := Scatter(device, n1, n2);
    assert a[1..x] == device[1..x] && b[..y - n1] == device[n1..y];
  }

  /** The 32-bit arithmetic loses no pair: the count stops within the truncated first piece, or the
      first piece's size fits 32 bits, and either the second piece's does too or what is left of the
      count stops within its truncated number of pairs and, doubled, fits 32 bits. */
  predicate Untruncated(count: u32, n1: nat, n2: nat) {
    || 2 * count < Trunc(n1)
    || (n1 < TWO32
        && (n2 < TWO32
            || (var left := count - (n1 - 1) / 2; left < TWO31 && left <= Trunc(n2 / 2))))
  }

  /** For pieces as `alloc` makes them, odd and even, the gathered words are those of the first
      min(count, capacity) pairs in order precisely when the 32-bit arithmetic loses none. */
  lemma GatherIff(count: u32, n1: nat, n2: nat)
    requires n1 % 2 == 1 && n2 % 2 == 0
    ensures Positions(count, n1, n2) == Range(1, Front(count, n1, n2)) <==> Untruncated(count, n1, n2)
  {
    var k, e, m := PairsInFirst(count, n1), WordsInSecond(count, n1, n2), Min(count, (n1 + n2) / 2);
    PairsIff(count, n1, n2, k, e);
    RangesIff(k, e, m, n1);
  }

  lemma PairsIff(count: u32, n1: nat, n2: nat, k: nat, e: nat)
    requires n1 % 2 == 1 && n2 % 2 == 0
    requires k == PairsInFirst(count, n1) && e == WordsInSecond(count, n1, n2)
    ensures AllPairs(count, n1, n2, k, e) <==> Untruncated(count, n1, n2)
  {
    if 2 * count < Trunc(n1) {
      CountInFirst(count, n1, n2, k, e);
    } else if n1 >= TWO32 {
      FirstTooLong(count, n1, n2, k, e);
    } else {
      var left := count - (n1 - 1) / 2;
      LeftForSecond(count, n1, n2, k, e, left);
      if n2 < TWO32 {
        SecondFits(left, n2, e);
      } else {
        SecondTooLong(left, n2, e);
      }
    }
  }

  /** k pairs of the first piece and e words of the second are the first min(count, capacity) pairs. */
  predicate AllPairs(count: u32, n1: nat, n2: nat, k: nat, e: nat) {
    2 * k + e == 2 * Min(count, (n1 + n2) / 2) && (e > 0 ==> n1 == 1 + 2 * k)
  }

  lemma CountInFirst(count: u32, n1: nat, n2: nat, k: nat, e: nat)
    requires n1 % 2 == 1 && n2 % 2 == 0 && 2 * count < Trunc(n1)
    requires k == PairsInFirst(count, n1) && e == WordsInSecond(count, n1, n2)
    ensures AllPairs(count, n1, n2, k, e)
  {
  }

  lemma FirstTooLong(count: u32, n1: nat, n2: nat, k: nat, e: nat)
    requires n1 % 2 == 1 && n2 % 2 == 0 && 2 * count >= Trunc(n1) && n1 >= TWO32
    requires k == PairsInFirst(count, n1) && e == WordsInSecond(count, n1, n2)
    ensures !AllPairs(count, n1, n2, k, e)
  {
    var t, q := n1 % TWO32, n1 / TWO32;
    assert n1 == TWO32 * q + t && q >= 1 && k == (t - 1) / 2 < count;
  }

  lemma LeftForSecond(count: u32, n1: nat, n2: nat, k: nat, e: nat, left: nat)
    requires n1 % 2 == 1 && n2 % 2 == 0 && n1 < TWO32 && 2 * count >= n1 && left == count - (n1 - 1) / 2
    requires k == PairsInFirst(count, n1) && e == WordsInSecond(count, n1, n2)
    ensures n1 == 1 + 2 * k && 0 < left < TWO32
    ensures e == if n2 > 0 then 2 * Min(left, Trunc(n2 / 2)) % TWO32 else 0
    ensures AllPairs(count, n1, n2, k, e) <==> e == 2 * Min(left, n2 / 2)
  {
  }

  lemma SecondFits(left: nat, n2: nat, e: nat)
    requires n2 % 2 == 0 && n2 < TWO32
    requires e == if n2 > 0 then 2 * Min(left, Trunc(n2 / 2)) % TWO32 else 0
    ensures e == 2 * Min(left, n2 / 2)
  {
    var m := Min(left, n2 / 2);
    assert Trunc(n2 / 2) == n2 / 2 && 2 * m < TWO32;
  }

  lemma SecondTooLong(left: nat, n2: nat, e: nat)
    requires n2 % 2 == 0 && n2 >= TWO32 && 0 < left < TWO32
    requires e == 2 * Min(left, Trunc(n2 / 2)) % TWO32
    ensures e == 2 * Min(left, n2 / 2) <==> left < TWO31 && left <= Trunc(n2 / 2)
  {
    var m := Min(left, Trunc(n2 / 2));
    assert n2 / 2 >= TWO31;
    if left < TWO31 && left <= Trunc(n2 / 2) {
      assert m == left;
    }
  }

  lemma RangesIff(k: nat, e: nat, m: nat, n1: nat)
    ensures Range(1, 1 + 2 * k) + Range(n1, n1 + e) == Range(1, 1 + 2 * m)
       <==> 2 * k + e == 2 * m && (e > 0 ==> n1 == 1 + 2 * k)
  {
    var ps, rs := Range(1, 1 + 2 * k) + Range(n1, n1 + e), Range(1, 1 + 2 * m);
    if e > 0 && 2 * k + e == 2 * m {
      assert ps[2 * k] == n1 && rs[2 * k] == 1 + 2 * k;
    }
  }

  /** The round trip through the two host spans gives back this device buffer's front. */
  predicate RoundTrip(device: seq<u32>, n1: nat, n2: nat)
    requires n1 % 2 == 1 && n2 % 2 == 0 && n1 + n2 <= |device|
  {
    var (a, b) := Scatter(device, n1, n2);
    && Gathered(device, n1, n2) == Slice(device, 1, Front(device[0], n1, n2))
    && |Gathered(device, n1, n2)| == 2 * ResultSize(a, b)
  }

  /** Where the first min(count, capacity) pairs end. */
  function Front(count: u32, n1: nat, n2: nat): (hi: nat)
    requires n1 % 2 == 1 && n2 % 2 == 0
    ensures 1 <= hi <= n1 + n2
  {
    1 + 2 * Min(count, (n1 + n2) / 2)
  }

  /** Reading the device buffer into the two spans and gathering them yields the first
      min(count, capacity) pairs in order, and `result_size` counts them, for every contents of the
      buffer if the 32-bit arithmetic loses no pair. */
  lemma GatherIsFront(device: seq<u32>, n1: nat, n2: nat)
    requires n1 % 2 == 1 && n2 % 2 == 0 && n1 + n2 <= |device|
    requires Untruncated(device[0], n1, n2)
    ensures RoundTrip(device, n1, n2)
  {
    GatherSelects(device, n1, n2);
    GatherIff(device[0], n1, n2);
    SelectRange(device, 1, Front(device[0], n1, n2));
    SizeIsFront(device, n1, n2);
  }

  lemma SizeIsFront(device: seq<u32>, n1: nat, n2: nat)
    requires n1 % 2 == 1 && n2 % 2 == 0 && n1 + n2 <= |device|
    ensures var (a, b) := Scatter(device, n1, n2);
            Front(device[0], n1, n2) == 1 + 2 * ResultSize(a, b)
  {
  }

  /** So in a ring of fewer than 2^32 words the results of every buffer that any run hands out are given
      back exactly, whatever the device has written and counted. */
  lemma EveryBufferIsGathered(entries: nat, events: seq<RingModel.Event>, k: nat, device: seq<u32>)
    requires 3 <= entries < TWO32 && k < |RingTheorems.Run(RingModel.Init(entries), events).live|
    requires var b := RingTheorems.Run(RingModel.Init(entries), events).live[k];
             b.first.len + b.second.len <= |device|
    ensures var b := RingTheorems.Run(RingModel.Init(entries), events).live[k];
            && b.first.len % 2 == 1 && b.second.len % 2 == 0 && b.first.len < TWO32 && b.second.len < TWO32
            && RoundTrip(device, b.first.len, b.second.len)
  {
    PiecesOfRun(entries, events, k);
    var b := RingTheorems.Run(RingModel.Init(entries), events).live[k];
    GatherIsFront(device, b.first.len, b.second.len);
  }

  lemma PiecesOfRun(entries: nat, events: seq<RingModel.Event>, k: nat)
    requires entries >= 3 && k < |RingTheorems.Run(RingModel.Init(entries), events).live|
    ensures var b := RingTheorems.Run(RingModel.Init(entries), events).live[k];
            && b.first.len % 2 == 1 && b.second.len % 2 == 0 && 3 <= b.first.len <= entries
            && b.second.len <= entries
  {
    RingTheorems.RingSafety(entries, events);
    var b := RingTheorems.Run(RingModel.Init(entries), events).live[k];
    assert RingModel.Shaped(entries, b) && b.second.len <= b.first.off;
  }

  /** And only then: otherwise some contents with the same count is not given back. */
  lemma LossShows(count: u32, n1: nat, n2: nat) returns (device: seq<u32>)
    requires n1 % 2 == 1 && n2 % 2 == 0 && !Untruncated(count, n1, n2)
    ensures |device| == n1 + n2 && device[0] == count && !RoundTrip(device, n1, n2)
  {
    var x, y := 1 + 2 * PairsInFirst(count, n1), n1 + WordsInSecond(count, n1, n2);
    device := seq(n1 + n2, i => if i == 0 then count else if 1 <= i < x || n1 <= i < y then 1 else 0);
    PairsIff(count, n1, n2, PairsInFirst(count, n1), WordsInSecond(count, n1, n2));
    GatheredSlices(device, n1, n2, x, y);
    var g, f := Gathered(device, n1, n2), Slice(device, 1, Front(count, n1, n2));
    if |g| == |f| {
      assert x < n1 < y;
      assert g[x - 1] == device[n1] == 1 && f[x - 1] == device[x] == 0;
    }
  }

  /** Each of the three ways to lose pairs: a first piece of 2^32 words or more, a second one of that
      size whose number of pairs is truncated, and 2^31 pairs or more in the second piece. */
  lemma LossesHappen()
    ensures Positions(1, 0x1_0000_0001, 0) == []
    ensures Positions(2, 3, 0x2_0000_0000) == Range(1, 3)
    ensures Positions(0x8000_0001, 3, 0x1_0000_0000) == Range(1, 3)
  {
    assert Range(1, 1) + Range(0x1_0000_0001, 0x1_0000_0001) == [];
    assert Range(1, 3) + Range(3, 3) == Range(1, 3);
  }

  /** There is a pair in the first span exactly when the count is positive and the truncated size has
      room for one, so for pieces below 2^32 words a job with any pair has one there. */
  lemma FirstSpanNotEmpty(count: u32, n1: nat, n2: nat)
    requires n1 % 2 == 1
    ensures PairsInFirst(count, n1) > 0 <==> count > 0 && Trunc(n1) >= 3
    ensures 3 <= n1 < TWO32 && PairsInFirst(count, n1) + PairsInSecond(count, n1, n2) > 0
        ==> PairsInFirst(count, n1) > 0
  {
  }
}
