/** How `mine_job` walks the window of a batch over the two spans of a job's results, in wrapping
    64-bit arithmetic, and when the batches of a job visit each of its candidates exactly once.  A
    position counts from the start of the first span through the second. */
module Traversal {
  import opened MachineWords

  /** The positions lo, lo + 1, ..., hi - 1. */
  function Range(lo: nat, hi: nat): (r: seq<nat>)
    ensures |r| == if lo <= hi then hi - lo else 0
  {
    seq(if lo <= hi then hi - lo else 0, i requires 0 <= i => lo + i)
  }

  /** `jBound` for a span of this size. */
  function Bound(size: u64, offset: u64, len: u64): u64 {
    Min((offset + len) % TWO64, size)
  }

  function NextLen(size: u64, offset: u64, len: u64): u64 {
    (len - (Bound(size, offset, len) - offset)) % TWO64
  }

  /** The offset for the second span: 0 only if the window starts past the first one. */
  function NextOffset(size: u64, offset: u64): u64 {
    if offset > size then 0 else (offset - size) % TWO64
  }

  /** The positions visited in spans of n0 and n1 candidates, in order. */
  function Visit(n0: u64, n1: u64, offset: u64, len: u64): seq<nat> {
    var offset', len' := NextOffset(n0, offset), NextLen(n0, offset, len);
    Range(offset, Bound(n0, offset, len))
    + Range(n0 + offset', n0 + Bound(n1, offset', len'))
  }

  /** What the wrapping arithmetic comes to: the window's part in the first span if it starts there,
      and otherwise everything from the start of the second span to the window's end. */
  lemma VisitClosedForm(n0: u64, n1: u64, offset: u64, len: u64)
    requires offset + len <= n0 + n1 < TWO64
    ensures Visit(n0, n1, offset, len)
         == if offset < n0 then Range(offset, Min(offset + len, n0)) else Range(n0, offset + len)
  {
    var offset', len' := NextOffset(n0, offset), NextLen(n0, offset, len);
    assert Bound(n0, offset, len) == Min(offset + len, n0);
    if offset < n0 {
      assert offset' == TWO64 - (n0 - offset) >= n1;
      assert Range(n0 + offset', n0 + Bound(n1, offset', len')) == [];
    } else {
      assert offset' == 0 && len' == len + (offset - n0);
      assert Range(offset, n0) == [];
    }
  }

  predicate Below(positions: seq<nat>, n: nat) {
    forall i :: 0 <= i < |positions| ==> positions[i] < n
  }

  /** No visited position lies outside its span, whatever the window. */
  lemma VisitStaysInside(n0: u64, n1: u64, offset: u64, len: u64)
    ensures Bound(n0, offset, len) <= n0
    ensures Bound(n1, NextOffset(n0, offset), NextLen(n0, offset, len)) <= n1
    ensures Below(Visit(n0, n1, offset, len), n0 + n1)
  {
  }

  /** The walk covers exactly the window iff the window ends inside the first span or starts exactly
      at its end. */
  lemma VisitIsWindowIff(n0: u64, n1: u64, offset: u64, len: u64)
    requires offset + len <= n0 + n1 < TWO64
    ensures Visit(n0, n1, offset, len) == Range(offset, offset + len)
       <==> offset + len <= n0 || offset == n0
  {
    VisitClosedForm(n0, n1, offset, len);
    var v, w := Visit(n0, n1, offset, len), Range(offset, offset + len);
    if offset > n0 {
      assert v[0] == n0;
      if len > 0 { assert w[0] == offset; }
    }
  }

  // ---------------------------------------------------------------- all batches of one job

  function Total(lens: seq<nat>): nat {
    if lens == [] then 0 else lens[0] + Total(lens[1..])
  }

  /** The visits of consecutive batches of these lengths, the first starting at `start`. */
  function VisitAll(n0: u64, n1: u64, start: nat, lens: seq<nat>): seq<nat>
    requires start + Total(lens) < TWO64
    decreases |lens|
  {
    if lens == [] then []
    else Visit(n0, n1, start, lens[0]) + VisitAll(n0, n1, start + lens[0], lens[1..])
  }

  /** How many of the batches start at or after the end of the first span. */
  function LateStarts(n0: nat, start: nat, lens: seq<nat>): nat
    decreases |lens|
  {
    if lens == [] then 0
    else (if start >= n0 then 1 else 0) + LateStarts(n0, start + lens[0], lens[1..])
  }

  lemma RangeJoin(a: nat, b: nat, c: nat)
    requires a <= b <= c
    ensures Range(a, b) + Range(b, c) == Range(a, c)
  {
  }

  lemma {:induction false} LateStartsAll(n0: nat, start: nat, lens: seq<nat>)
    requires start >= n0
    ensures LateStarts(n0, start, lens) == |lens|
    decreases |lens|
  {
    if lens != [] { LateStartsAll(n0, start + lens[0], lens[1..]); }
  }

  ghost predicate Positive(lens: seq<nat>) {
    forall i :: 0 <= i < |lens| ==> lens[i] > 0
  }

  /** From the second span on, a single batch gives everything from the span's beginning to its own
      end; more than one repeats the span's first candidate. */
  lemma LateBatches(n0: u64, n1: u64, start: nat, lens: seq<nat>)
    requires n0 <= start && start + Total(lens) <= n0 + n1 < TWO64 && lens != [] && Positive(lens)
    ensures VisitAll(n0, n1, start, lens) == Range(n0, start + Total(lens)) <==> |lens| == 1
  {
    if |lens| == 1 {
      OneLate(n0, n1, start, lens);
    } else {
      LateStart(n0, n1, start + lens[0], lens[1..]);
      FirstLate(n0, n1, start, lens, VisitAll(n0, n1, start + lens[0], lens[1..]));
      Repeated(n0, start + lens[0], start + Total(lens), VisitAll(n0, n1, start + lens[0], lens[1..]));
    }
  }

  lemma OneLate(n0: u64, n1: u64, start: nat, lens: seq<nat>)
    requires |lens| == 1 && n0 <= start && start + lens[0] <= n0 + n1 < TWO64
    ensures Total(lens) == lens[0] && VisitAll(n0, n1, start, lens) == Range(n0, start + Total(lens))
  {
    VisitClosedForm(n0, n1, start, lens[0]);
    assert lens[1..] == [] && Range(n0, start + lens[0]) + [] == Range(n0, start + lens[0]);
  }

  lemma FirstLate(n0: u64, n1: u64, start: nat, lens: seq<nat>, more: seq<nat>)
    requires lens != [] && n0 <= start && start + Total(lens) <= n0 + n1 < TWO64
    requires more == VisitAll(n0, n1, start + lens[0], lens[1..])
    ensures VisitAll(n0, n1, start, lens) == Range(n0, start + lens[0]) + more
  {
    VisitClosedForm(n0, n1, start, lens[0]);
  }

  lemma LateStart(n0: u64, n1: u64, start: nat, lens: seq<nat>)
    requires n0 <= start && start + Total(lens) <= n0 + n1 < TWO64 && lens != [] && Positive(lens)
    ensures var v := VisitAll(n0, n1, start, lens); v != [] && v[0] == n0
    ensures Total(lens) > 0
  {
    VisitClosedForm(n0, n1, start, lens[0]);
  }

  lemma Repeated(n0: nat, e: nat, end: nat, v: seq<nat>)
    requires n0 < e < end && v != [] && v[0] == n0
    ensures Range(n0, e) + v != Range(n0, end)
  {
    assert (Range(n0, e) + v)[e - n0] == n0;
    assert Range(n0, end)[e - n0] == e;
  }

  lemma FirstBatch(n0: u64, n1: u64, start: nat, lens: seq<nat>)
    requires lens != [] && start < n0 && start + Total(lens) <= n0 + n1 < TWO64
    ensures VisitAll(n0, n1, start, lens)
         == Range(start, Min(start + lens[0], n0)) + VisitAll(n0, n1, start + lens[0], lens[1..])
  {
    VisitClosedForm(n0, n1, start, lens[0]);
  }

  /** The batches that have taken a job, from a position in its first span on, up to anywhere visit
      every candidate so far exactly once and in order iff they end within the first span or exactly
      one of them starts at or after the second span's beginning.  When they take all of the job, the
      first case is that of an empty second span. */
  lemma {:induction false} ExactlyOnceIff(n0: u64, n1: u64, start: nat, lens: seq<nat>)
    requires start <= n0 && start + Total(lens) <= n0 + n1 < TWO64 && Positive(lens)
    ensures VisitAll(n0, n1, start, lens) == Range(start, start + Total(lens))
       <==> start + Total(lens) <= n0 || LateStarts(n0, start, lens) == 1
    decreases |lens|
  {
    if lens != [] {
      if start == n0 {
        FromSecondSpan(n0, n1, lens);
      } else if start + lens[0] <= n0 {
        var e, rest := start + lens[0], lens[1..];
        assert e + Total(rest) == start + Total(lens);
        ExactlyOnceIff(n0, n1, e, rest);
        InFirstSpan(n0, n1, start, lens, e, rest);
      } else {
        Straddled(n0, n1, start, lens);
      }
    }
  }

  lemma FromSecondSpan(n0: u64, n1: u64, lens: seq<nat>)
    requires lens != [] && Positive(lens) && n0 + Total(lens) <= n0 + n1 < TWO64
    ensures Total(lens) > 0
    ensures VisitAll(n0, n1, n0, lens) == Range(n0, n0 + Total(lens)) <==> LateStarts(n0, n0, lens) == 1
  {
    LateBatches(n0, n1, n0, lens);
    LateStartsAll(n0, n0, lens);
  }

  /** The first batch ends in the first span: it depends on the others. */
  lemma InFirstSpan(n0: u64, n1: u64, start: nat, lens: seq<nat>, e: nat, rest: seq<nat>)
    requires lens != [] && rest == lens[1..] && e == start + lens[0]
    requires start < n0 && e <= n0 && e + Total(rest) == start + Total(lens) <= n0 + n1 < TWO64
    ensures VisitAll(n0, n1, start, lens) == Range(start, start + Total(lens))
       <==> VisitAll(n0, n1, e, rest) == Range(e, e + Total(rest))
    ensures LateStarts(n0, start, lens) == LateStarts(n0, e, rest)
  {
    FirstBatch(n0, n1, start, lens);
    Cancel(start, e, start + Total(lens), VisitAll(n0, n1, e, rest));
  }

  /** The first batch ends in the second span: one more batch makes up for what it loses. */
  lemma Straddled(n0: u64, n1: u64, start: nat, lens: seq<nat>)
    requires lens != [] && start < n0 < start + lens[0] && Positive(lens)
    requires start + Total(lens) <= n0 + n1 < TWO64
    ensures VisitAll(n0, n1, start, lens) == Range(start, start + Total(lens))
       <==> LateStarts(n0, start, lens) == 1
  {
    var e, rest := start + lens[0], lens[1..];
    FirstBatch(n0, n1, start, lens);
    LateStartsAll(n0, e, rest);
    Cancel(start, n0, start + Total(lens), VisitAll(n0, n1, e, rest));
    if rest != [] {
      LateBatches(n0, n1, e, rest);
    }
  }

  /** Two candidates in each span: a straddling window loses its second part, a batch that takes all of
      the job loses the second span, and late batches repeat its first candidate. */
  lemma WalkGoesWrong()
    ensures Visit(2, 2, 1, 2) == [1]
    ensures VisitAll(2, 2, 0, [4]) == [0, 1]
    ensures VisitAll(2, 2, 0, [2, 1, 1]) == [0, 1, 2, 2, 3]
  {
    VisitClosedForm(2, 2, 1, 2);
    VisitClosedForm(2, 2, 0, 4);
    VisitClosedForm(2, 2, 0, 2);
    FirstVisit(2, 2, 0, 4, []);
    FirstVisit(2, 2, 0, 2, [1, 1]);
    LastVisitRepeats();
  }

  lemma LastVisitRepeats()
    ensures VisitAll(2, 2, 2, [1, 1]) == [2, 2, 3]
  {
    VisitClosedForm(2, 2, 2, 1);
    VisitClosedForm(2, 2, 3, 1);
    FirstVisit(2, 2, 2, 1, [1]);
    FirstVisit(2, 2, 3, 1, []);
  }

  lemma FirstVisit(n0: u64, n1: u64, start: nat, len: nat, rest: seq<nat>)
    requires start + len + Total(rest) < TWO64
    ensures Total([len] + rest) == len + Total(rest)
    ensures VisitAll(n0, n1, start, [len] + rest)
         == Visit(n0, n1, start, len) + VisitAll(n0, n1, start + len, rest)
  {
    assert ([len] + rest)[1..] == rest;
  }

  lemma Cancel(a: nat, b: nat, c: nat, tail: seq<nat>)
    requires a <= b <= c
    ensures Range(a, b) + tail == Range(a, c) <==> tail == Range(b, c)
  {
    RangeJoin(a, b, c);
    if Range(a, b) + tail == Range(a, c) {
      assert tail == (Range(a, b) + tail)[b - a..];
      assert Range(b, c) == Range(a, c)[b - a..];
    }
  }

  // ---------------------------------------------------------------- the loop

  /** The candidates that are looked at when mining stops at the first winner. */
  function UpTo<C(==)>(cs: seq<C>, winners: set<C>): (r: seq<C>)
    ensures r <= cs
    ensures forall i :: 0 <= i < |r| - 1 ==> r[i] !in winners
    ensures r == cs || (r != [] && r[|r| - 1] in winners)
  {
    if cs == [] then []
    else if cs[0] in winners then [cs[0]]
    else [cs[0]] + UpTo(cs[1..], winners)
  }

  ghost predicate NoWinner<C>(cs: seq<C>, winners: set<C>) {
    forall c :: c in cs ==> c !in winners
  }

  lemma UpToFirst<C>(c: C, rest: seq<C>, winners: set<C>)
    ensures UpTo([c] + rest, winners) == if c in winners then [c] else [c] + UpTo(rest, winners)
    ensures NoWinner([c] + rest, winners) <==> c !in winners && NoWinner(rest, winners)
  {
    assert ([c] + rest)[1..] == rest;
  }

  lemma {:induction false} UpToAppend<C>(cs: seq<C>, ds: seq<C>, winners: set<C>)
    ensures UpTo(cs + ds, winners)
         == if NoWinner(cs, winners) then cs + UpTo(ds, winners) else UpTo(cs, winners)
    decreases |cs|
  {
    if cs == [] {
      assert cs + ds == ds;
    } else {
      UpToAppend(cs[1..], ds, winners);
      UpToLonger(cs[0], cs[1..], ds, winners);
      assert [cs[0]] + cs[1..] == cs;
    }
  }

  lemma UpToLonger<C>(c: C, rest: seq<C>, ds: seq<C>, winners: set<C>)
    requires UpTo(rest + ds, winners)
          == if NoWinner(rest, winners) then rest + UpTo(ds, winners) else UpTo(rest, winners)
    ensures UpTo([c] + rest + ds, winners)
         == if NoWinner([c] + rest, winners) then [c] + rest + UpTo(ds, winners)
            else UpTo([c] + rest, winners)
  {
    UpToFirst(c, rest, winners);
    UpToFirst(c, rest + ds, winners);
    Associate([c], rest, ds);
    Associate([c], rest, UpTo(ds, winners));
  }

  lemma UpToAll<C>(cs: seq<C>, ds: seq<C>, winners: set<C>)
    requires NoWinner(cs, winners)
    ensures UpTo(cs + ds, winners) == cs + UpTo(ds, winners)
  {
    UpToAppend(cs, ds, winners);
  }

  lemma {:induction false} UpToEnd<C>(cs: seq<C>)
    ensures UpTo(cs, {}) == cs
  {
    if cs != [] {
      UpToEnd(cs[1..]);
    }
  }

  /** The candidates at these positions. */
  function Select<C>(s: seq<C>, positions: seq<nat>): (r: seq<C>)
    requires Below(positions, |s|)
    ensures |r| == |positions|
  {
    seq(|positions|, i requires 0 <= i < |positions| => s[positions[i]])
  }

  function Slice<C>(s: seq<C>, lo: nat, hi: nat): seq<C> {
    if lo <= hi <= |s| then s[lo..hi] else []
  }

  lemma SelectRange<C>(s: seq<C>, lo: nat, hi: nat)
    requires hi <= |s|
    ensures Below(Range(lo, hi), |s|) && Select(s, Range(lo, hi)) == Slice(s, lo, hi)
  {
  }

  lemma SelectAppend<C>(s: seq<C>, p: seq<nat>, q: seq<nat>)
    requires Below(p, |s|) && Below(q, |s|)
    ensures Below(p + q, |s|) && Select(s, p + q) == Select(s, p) + Select(s, q)
  {
  }

  lemma SliceOfJoin<C>(s0: seq<C>, s1: seq<C>, lo: nat, hi: nat)
    ensures hi <= |s0| ==> Slice(s0 + s1, lo, hi) == Slice(s0, lo, hi)
    ensures hi <= |s1| ==> Slice(s0 + s1, |s0| + lo, |s0| + hi) == Slice(s1, lo, hi)
  {
  }

  /** The visited positions name the two slices the loops run over. */
  lemma SelectVisit<C>(s0: seq<C>, s1: seq<C>, offset: u64, len: u64)
    requires |s0| + |s1| < TWO64
    ensures var v := Visit(|s0|, |s1|, offset, len);
            var offset', len' := NextOffset(|s0|, offset), NextLen(|s0|, offset, len);
            && Below(v, |s0 + s1|)
            && Select(s0 + s1, v) == Slice(s0, offset, Bound(|s0|, offset, len))
                                     + Slice(s1, offset', Bound(|s1|, offset', len'))
  {
    var offset', len' := NextOffset(|s0|, offset), NextLen(|s0|, offset, len);
    SelectTwo(s0, s1, offset, Bound(|s0|, offset, len), offset', Bound(|s1|, offset', len'));
  }

  lemma SelectTwo<C>(s0: seq<C>, s1: seq<C>, lo: nat, hi: nat, lo': nat, hi': nat)
    requires hi <= |s0| && hi' <= |s1|
    ensures var v := Range(lo, hi) + Range(|s0| + lo', |s0| + hi');
            && Below(v, |s0 + s1|)
            && Select(s0 + s1, v) == Slice(s0, lo, hi) + Slice(s1, lo', hi')
  {
    var s := s0 + s1;
    SelectRange(s, lo, hi);
    SelectRange(s, |s0| + lo', |s0| + hi');
    SelectAppend(s, Range(lo, hi), Range(|s0| + lo', |s0| + hi'));
    SliceOfJoin(s0, s1, lo, hi);
    SliceOfJoin(s0, s1, lo', hi');
  }

  /** The inner loop: the span's candidates from `offset` up to `bound`, or up to the first winner. */
  method MineSpan<C(==)>(span: seq<C>, offset: nat, bound: nat, winners: set<C>)
    returns (visited: seq<C>, success: bool)
    requires bound <= |span|
    ensures visited == UpTo(Slice(span, offset, bound), winners)
    ensures success == !NoWinner(Slice(span, offset, bound), winners)
  {
    visited, success := [], false;
    var j := offset;
    while j < bound
      invariant offset <= j && (offset <= bound ==> j <= bound)
      invariant visited == Slice(span, offset, Min(j, bound)) && NoWinner(visited, winners)
    {
      var c := span[j];
      NextCandidate(span, offset, j, bound, visited, winners);
      visited := visited + [c];
      if c in winners {
        success := true;
        return;
      }
      j := j + 1;
    }
    UpToAll(visited, [], winners);
    assert visited + [] == visited;
  }

  lemma NextCandidate<C>(span: seq<C>, offset: nat, j: nat, bound: nat, visited: seq<C>, winners: set<C>)
    requires offset <= j < bound <= |span|
    requires visited == Slice(span, offset, j) && NoWinner(visited, winners)
    ensures visited + [span[j]] == Slice(span, offset, j + 1)
    ensures if span[j] in winners
            then UpTo(Slice(span, offset, bound), winners) == visited + [span[j]]
                 && !NoWinner(Slice(span, offset, bound), winners)
            else NoWinner(visited + [span[j]], winners)
  {
    SliceSplits(span, offset, j, bound);
    UpToAll(visited, span[j..bound], winners);
  }

  lemma SliceSplits<C>(s: seq<C>, lo: nat, j: nat, hi: nat)
    requires lo <= j < hi <= |s|
    ensures Slice(s, lo, hi) == Slice(s, lo, j) + s[j..hi] && s[j..hi][0] == s[j]
    ensures Slice(s, lo, j + 1) == Slice(s, lo, j) + [s[j]]
    ensures s[j] in Slice(s, lo, hi)
  {
    CutSlice(s, lo, j, hi);
    CutSlice(s, lo, j, j + 1);
    assert s[lo..hi][j - lo] == s[j];
  }

  lemma CutSlice<C>(s: seq<C>, lo: nat, j: nat, hi: nat)
    requires lo <= j <= hi <= |s|
    ensures s[lo..hi] == s[lo..j] + s[j..hi] && (hi == j + 1 ==> s[j..hi] == [s[j]])
  {
  }

  /** `mine_job` on one batch looks at the candidates at exactly the visited positions, in order, up
      to the first winner. */
  method MineJob<C(==)>(s0: seq<C>, s1: seq<C>, batchOffset: u64, batchLen: u64, winners: set<C>)
    returns (visited: seq<C>, success: bool)
    requires |s0| + |s1| < TWO64
    ensures var v := Visit(|s0|, |s1|, batchOffset, batchLen);
            && Below(v, |s0 + s1|)
            && visited == UpTo(Select(s0 + s1, v), winners)
            && success == !NoWinner(Select(s0 + s1, v), winners)
  {
    var offset, len := batchOffset, batchLen;
    SelectVisit(s0, s1, offset, len);
    var bound := Bound(|s0|, offset, len);
    visited, success := MineSpan(s0, offset, bound, winners);
    ghost var cs := Slice(s0, offset, bound);
    len, offset := NextLen(|s0|, offset, len), NextOffset(|s0|, offset);
    bound := Bound(|s1|, offset, len);
    ghost var ds := Slice(s1, offset, bound);
    UpToAppend(cs, ds, winners);
    if !success {
      var more;
      more, success := MineSpan(s1, offset, bound, winners);
      UpToAll(cs, [], winners);
      assert cs + [] == cs;
      visited := visited + more;
    }
  }
}
