/** The compression functions of SHA-1, SHA-256 and SHA-512 share one frame: a message schedule that
    feeds one word to each round.  FIPS 180-4 keeps the whole schedule; the code keeps its last 16
    words in a circular buffer. */
module Sha2Schedule {
  /** What tells the algorithms apart.  The next schedule word is computed from the word 16 back and
      the three words tap1, tap2 and tap3 places after that one. */
  datatype Alg<!R> = Alg(tap1: nat, tap2: nat, tap3: nat, next: (int, int, int, int) -> int,
                         round: (R, nat, int) -> R, feedForward: (R, R) -> R, rounds: nat)

  predicate WellFormed<R>(alg: Alg<R>) {
    alg.tap1 < 16 && alg.tap2 < 16 && alg.tap3 < 16 && alg.rounds >= 16
  }

  // ---------------------------------------------------------------- FIPS 180-4

  /** The first n words of the schedule of sections 6.1.2, 6.2.2 and 6.4.2. */
  function Schedule<R>(alg: Alg<R>, block: seq<int>, n: nat): (ws: seq<int>)
    requires WellFormed(alg) && |block| == 16
    ensures |ws| == n
  {
    if n == 0 then []
    else
      var ws := Schedule(alg, block, n - 1);
      ws + [if n <= 16 then block[n - 1] else NextWord(alg, ws)]
  }

  function NextWord<R>(alg: Alg<R>, ws: seq<int>): int
    requires WellFormed(alg) && |ws| >= 16
  {
    var t := |ws| - 16;
    alg.next(ws[t], ws[t + alg.tap1], ws[t + alg.tap2], ws[t + alg.tap3])
  }

  /** The working variables after one round per word. */
  function Rounds<R>(alg: Alg<R>, r: R, ws: seq<int>): R {
    if ws == [] then r
    else alg.round(Rounds(alg, r, ws[..|ws| - 1]), |ws| - 1, ws[|ws| - 1])
  }

  function Compress<R>(alg: Alg<R>, state: R, block: seq<int>): R
    requires WellFormed(alg) && |block| == 16
  {
    alg.feedForward(state, Rounds(alg, state, Schedule(alg, block, alg.rounds)))
  }

  // ---------------------------------------------------------------- the code

  /** The circular buffer holds the last 16 words of the schedule, word t at index t mod 16. */
  ghost predicate Circular(buf: seq<int>, ws: seq<int>) {
    |buf| == 16 <= |ws| && forall k :: |ws| - 16 <= k < |ws| ==> buf[k % 16] == ws[k]
  }

  /** ws starts the schedule of the block. */
  ghost predicate Scheduled<R>(alg: Alg<R>, block: seq<int>, ws: seq<int>)
    requires WellFormed(alg) && |block| == 16
  {
    forall t :: 0 <= t < |ws| ==> ws[t] == if t < 16 then block[t] else NextWord(alg, ws[..t])
  }

  lemma {:induction false} ScheduledIsSchedule<R>(alg: Alg<R>, block: seq<int>, ws: seq<int>)
    requires WellFormed(alg) && |block| == 16 && Scheduled(alg, block, ws)
    ensures ws == Schedule(alg, block, |ws|)
    decreases |ws|
  {
    if ws != [] {
      var init := ws[..|ws| - 1];
      assert forall t :: 0 <= t < |init| ==> init[..t] == ws[..t];
      ScheduledIsSchedule(alg, block, init);
    }
  }

  lemma OneMore<R>(alg: Alg<R>, block: seq<int>, ws: seq<int>, w: int)
    requires WellFormed(alg) && |block| == 16 && Scheduled(alg, block, ws)
    requires w == if |ws| < 16 then block[|ws|] else NextWord(alg, ws)
    ensures Scheduled(alg, block, ws + [w])
  {
    assert (ws + [w])[..|ws|] == ws;
    assert forall t :: 0 <= t < |ws| ==> (ws + [w])[..t] == ws[..t];
  }

  lemma OneMoreRound<R>(alg: Alg<R>, r: R, ws: seq<int>, w: int)
    ensures Rounds(alg, r, ws + [w]) == alg.round(Rounds(alg, r, ws), |ws|, w)
  {
    assert (ws + [w])[..|ws|] == ws;
  }

  /** The working variables after the rounds for these words, the first of them round t. */
  function RoundsFrom<R>(alg: Alg<R>, r: R, t: nat, ws: seq<int>): R
    decreases |ws|
  {
    if ws == [] then r else RoundsFrom(alg, alg.round(r, t, ws[0]), t + 1, ws[1..])
  }

  lemma {:induction false} RoundsJoin<R>(alg: Alg<R>, start: R, ws: seq<int>, w: seq<int>)
    ensures Rounds(alg, start, ws + w) == RoundsFrom(alg, Rounds(alg, start, ws), |ws|, w)
    decreases |w|
  {
    if w == [] {
      assert ws + w == ws;
    } else {
      OneMoreRound(alg, start, ws, w[0]);
      assert ws + [w[0]] + w[1..] == ws + w;
      RoundsJoin(alg, start, ws + [w[0]], w[1..]);
    }
  }

  lemma Tap(buf: seq<int>, ws: seq<int>, tap: nat)
    requires Circular(buf, ws) && tap < 16
    ensures buf[(|ws| + tap) % 16] == ws[|ws| - 16 + tap]
  {
    assert (|ws| + tap) % 16 == (|ws| - 16 + tap) % 16;
  }

  lemma CircularNext(buf: seq<int>, ws: seq<int>, w: int)
    requires Circular(buf, ws)
    ensures Circular(buf[|ws| % 16 := w], ws + [w])
  {
  }

  /** One word of the message expansion, in place. */
  method Expand<R>(alg: Alg<R>, buf: array<int>, j: nat, ghost ws: seq<int>) returns (w: int)
    requires WellFormed(alg) && Circular(buf[..], ws) && j == |ws|
    modifies buf
    ensures w == NextWord(alg, ws) && Circular(buf[..], ws + [w])
  {
    Tap(buf[..], ws, 0);
    Tap(buf[..], ws, alg.tap1);
    Tap(buf[..], ws, alg.tap2);
    Tap(buf[..], ws, alg.tap3);
    w := alg.next(buf[j % 16], buf[(j + alg.tap1) % 16], buf[(j + alg.tap2) % 16],
                  buf[(j + alg.tap3) % 16]);
    CircularNext(buf[..], ws, w);
    ghost var next := buf[..][j % 16 := w];
    buf[j % 16] := w;
    assert buf[..] == next;
  }

  /** The next n schedule words, in place. */
  method ExpandSome<R>(alg: Alg<R>, block: seq<int>, buf: array<int>, j: nat, n: nat, ghost ws: seq<int>)
    returns (w: seq<int>)
    requires WellFormed(alg) && |block| == 16 && j == |ws|
    requires Circular(buf[..], ws) && Scheduled(alg, block, ws)
    modifies buf
    ensures |w| == n && Circular(buf[..], ws + w) && Scheduled(alg, block, ws + w)
  {
    w := [];
    assert ws + w == ws;
    for i := 0 to n
      invariant |w| == i && Circular(buf[..], ws + w) && Scheduled(alg, block, ws + w)
    {
      ghost var now := ws + w;
      OneMore(alg, block, now, NextWord(alg, now));
      var x := Expand(alg, buf, j + i, now);
      assert now + [x] == ws + (w + [x]);
      w := w + [x];
    }
  }

  method CopyBlock(block: seq<int>) returns (buf: array<int>)
    requires |block| == 16
    ensures fresh(buf) && buf[..] == block
  {
    buf := new int[16](i requires 0 <= i < 16 => block[i]);
    assert buf[..] == block;
  }

  /** What holds between rounds: the schedule so far and the working variables it leads to. */
  ghost predicate Progress<R>(alg: Alg<R>, state: R, block: seq<int>, ws: seq<int>, r: R)
    requires WellFormed(alg) && |block| == 16
  {
    Scheduled(alg, block, ws) && r == Rounds(alg, state, ws)
  }

  /** The first sixteen rounds: the block is copied in on the way. */
  method CopyRounds<R>(alg: Alg<R>, state: R, block: seq<int>, buf: array<int>)
    returns (r: R, ghost ws: seq<int>)
    requires WellFormed(alg) && |block| == 16 == buf.Length
    modifies buf
    ensures |ws| == 16 && Progress(alg, state, block, ws, r) && Circular(buf[..], ws)
  {
    r, ws := state, [];
    var j := 0;
    while j < 16
      invariant j == |ws| <= 16 && Progress(alg, state, block, ws, r) && buf[..j] == ws
    {
      buf[j] := block[j];
      OneMore(alg, block, ws, buf[j]);
      OneMoreRound(alg, state, ws, buf[j]);
      r := alg.round(r, j, buf[j]);
      ws := ws + [buf[j]];
      j := j + 1;
    }
    assert buf[..] == ws;
  }

  /** One remaining round: the next word of the schedule, and the round with it. */
  method NextRound<R>(alg: Alg<R>, ghost state: R, ghost block: seq<int>, buf: array<int>, j: nat,
                      ghost ws0: seq<int>, r0: R) returns (r: R, ghost ws: seq<int>)
    requires WellFormed(alg) && |block| == 16 && 16 <= j == |ws0| < alg.rounds
    requires Progress(alg, state, block, ws0, r0) && Circular(buf[..], ws0)
    modifies buf
    ensures |ws| == j + 1 && Progress(alg, state, block, ws, r) && Circular(buf[..], ws)
  {
    OneMore(alg, block, ws0, NextWord(alg, ws0));
    OneMoreRound(alg, state, ws0, NextWord(alg, ws0));
    var w := Expand(alg, buf, j, ws0);
    r := alg.round(r0, j, w);
    ws := ws0 + [w];
  }

  /** The rolled transform: the remaining rounds expand the schedule in the circular buffer. */
  method Transform<R>(alg: Alg<R>, state: R, block: seq<int>) returns (out: R)
    requires WellFormed(alg) && |block| == 16
    ensures out == Compress(alg, state, block)
  {
    var buf := new int[16](_ => 0);
    var r, ws := CopyRounds(alg, state, block, buf);
    var j := 16;
    while j < alg.rounds
      invariant j == |ws| <= alg.rounds && Progress(alg, state, block, ws, r)
      invariant Circular(buf[..], ws)
    {
      r, ws := NextRound(alg, state, block, buf, j, ws, r);
      j := j + 1;
    }
    ScheduledIsSchedule(alg, block, ws);
    out := alg.feedForward(state, r);
  }
}
