/** What every run of the cyclic queue guarantees, from the constructor on, for every ring of at
    least three words and every interleaving of requests, handle copies and handle drops. */
module RingTheorems {
  import opened RingModel

  ghost function Run(s: State, events: seq<Event>): (t: State)
    requires Inv(s)
    ensures Inv(t)
    decreases |events|
  {
    if events == [] then s
    else
      StepKeeps(s, events[0]);
      Run(Step(s, events[0]), events[1..])
  }

  // ---------------------------------------------------------------- ring safety

  predicate Covers(b: Buf, cell: nat) {
    || b.first.off <= cell < b.first.off + b.first.len
    || b.second.off <= cell < b.second.off + b.second.len
  }

  lemma CellInPlace(n: nat, i1: nat, b: Buf, cell: nat)
    requires 2 <= i1 <= n && Shaped(n, b) && Located(n, i1, b) && Covers(b, cell)
    ensures cell < n && Start(n, i1, b.first.off) <= Start(n, i1, cell) < End(n, i1, b.cursor)
  {
  }

  lemma Apart(n: nat, i1: nat, a: Buf, b: Buf, cell: nat)
    requires 2 <= i1 <= n && Shaped(n, a) && Located(n, i1, a) && Shaped(n, b) && Located(n, i1, b)
    requires Precedes(n, i1, a, b)
    ensures !(Covers(a, cell) && Covers(b, cell))
  {
    if Covers(a, cell) && Covers(b, cell) {
      CellInPlace(n, i1, a, cell);
      CellInPlace(n, i1, b, cell);
    }
  }

  ghost predicate Disjoint(n: nat, live: seq<Buf>) {
    && (forall k, c: nat :: 0 <= k < |live| && Covers(live[k], c) ==> c < n)
    && (forall j, k, c: nat :: 0 <= j < k < |live| ==> !(Covers(live[j], c) && Covers(live[k], c)))
    && (forall k :: 0 <= k < |live| ==> live[k].second.len <= live[k].first.off)
  }

  lemma ChainIsDisjoint(n: nat, i1: nat, i0: nat, live: seq<Buf>)
    requires 2 <= i1 <= n && Parities(n, live) && Chain(n, i1, i0, live)
    ensures Disjoint(n, live)
  {
    forall k, c: nat | 0 <= k < |live| && Covers(live[k], c) ensures c < n {
      CellInPlace(n, i1, live[k], c);
    }
    forall j, k, c: nat | 0 <= j < k < |live| ensures !(Covers(live[j], c) && Covers(live[k], c)) {
      Apart(n, i1, live[j], live[k], c);
    }
    forall k | 0 <= k < |live| ensures live[k].second.len <= live[k].first.off {
      assert Shaped(n, live[k]) && Located(n, i1, live[k]);
    }
  }

  /** In every run the cursors stay in range, every first piece is odd and of at least three words,
      every second piece is even, and no cell of the ring ever belongs to two undestroyed buffers
      or to both pieces of one. */
  lemma RingSafety(entries: nat, events: seq<Event>)
    requires entries >= 3
    ensures var t := Run(Init(entries), events);
            && 0 < t.i1 <= entries && 0 < t.i0 <= entries
            && (forall k :: 0 <= k < |t.live| ==> Shaped(entries, t.live[k]))
            && Disjoint(entries, t.live)
  {
    var t := Run(Init(entries), events);
    RunKeepsSize(Init(entries), events);
    ChainIsDisjoint(entries, t.i1, t.i0, t.live);
  }

  // ---------------------------------------------------------------- history

  /** A buffer without its reference count: what its owner sees. */
  function Place(b: Buf): (Span, Span, nat, nat) {
    (b.first, b.second, b.cursor, b.serial)
  }

  /** All buffers so far, by serial number. */
  function History(s: State): seq<Buf> {
    s.gone + s.live
  }

  function Places(bs: seq<Buf>): seq<(Span, Span, nat, nat)> {
    seq(|bs|, i requires 0 <= i < |bs| => Place(bs[i]))
  }

  /** Every buffer of s, destroyed or not, is at the same position of t's history, unmoved; what was
      destroyed stays destroyed; and a failure note is not cleared without a wakeup. */
  ghost predicate Extends(s: State, t: State) {
    && t.entries == s.entries && s.gone <= t.gone && Places(History(s)) <= Places(History(t))
    && s.wakeups <= t.wakeups && (s.failedAlloc && !t.failedAlloc ==> s.wakeups < t.wakeups)
  }

  lemma ExtendsTrans(s: State, t: State, u: State)
    requires Extends(s, t) && Extends(t, u)
    ensures Extends(s, u)
  {
    PrefixTrans(s.gone, t.gone, u.gone);
    PrefixTrans(Places(History(s)), Places(History(t)), Places(History(u)));
  }

  lemma PrefixTrans<T>(a: seq<T>, b: seq<T>, c: seq<T>)
    requires a <= b <= c
    ensures a <= c
  {
  }

  lemma DestroyExtends(s: State)
    requires |s.live| > 0
    ensures Extends(s, DestroyOldest(s))
  {
    assert History(DestroyOldest(s)) == History(s);
  }

  lemma {:induction false} CascadeExtends(s: State)
    ensures Extends(s, Cascade(s)) && !Dying(Cascade(s))
    decreases |s.live|
  {
    if Dying(s) {
      DestroyExtends(s);
      CascadeExtends(DestroyOldest(s));
      ExtendsTrans(s, DestroyOldest(s), Cascade(DestroyOldest(s)));
    }
  }

  lemma AllocExtends(s: State, n: nat)
    requires Inv(s) && Odd(n)
    ensures Extends(s, Alloc(s, n))
  {
    var t := Alloc(s, n);
    AllocOutcome(s, n);
    if Room(s) {
      AppendExtends(s, t, t.live[|t.live| - 1]);
    }
  }

  lemma AppendExtends(s: State, t: State, b: Buf)
    requires t.live == s.live + [b] && t.gone == s.gone && t.entries == s.entries
    requires t.failedAlloc == s.failedAlloc && t.wakeups == s.wakeups
    ensures Extends(s, t)
  {
    assert History(t) == History(s) + [b];
  }

  lemma HandlesExtend(s: State, k: nat, h: nat)
    requires k < |s.live|
    ensures Extends(s, SetHandles(s, k, h))
  {
    assert Places(History(SetHandles(s, k, h))) == Places(History(s));
  }

  lemma DropExtends(s: State, k: nat)
    requires Held(s, k)
    ensures Extends(s, DropHandle(s, k)) && !Dying(DropHandle(s, k))
  {
    var r := SetHandles(s, k, s.live[k].handles - 1);
    HandlesExtend(s, k, s.live[k].handles - 1);
    CascadeExtends(r);
    ExtendsTrans(s, r, Cascade(r));
  }

  lemma AskedExtends(s: State, n: nat)
    requires Inv(s) && Dying(s) && Odd(n)
    ensures Extends(s, Asked(s, n))
  {
    var t := DestroyOldest(s);
    DestroyKeeps(s);
    DestroyExtends(s);
    AllocExtends(t, n);
    ExtendsTrans(s, t, Alloc(t, n));
  }

  lemma StepExtends(s: State, e: Event)
    requires Inv(s)
    ensures Extends(s, Step(s, e))
  {
    match e
    case Request(n) => if Odd(n) { AllocExtends(s, n); }
    case Copy(k) => if Held(s, k) { HandlesExtend(s, k, s.live[k].handles + 1); }
    case Drop(k) => if Held(s, k) { DropExtends(s, k); }
    case Release(k) => if Held(s, k) { HandlesExtend(s, k, s.live[k].handles - 1); }
    case Destroy => if Dying(s) { DestroyExtends(s); }
    case DestroyAsking(n) =>
      if Dying(s) && Odd(n) {
        AskedExtends(s, n);
      }
  }

  lemma {:induction false} RunExtends(s: State, events: seq<Event>)
    requires Inv(s)
    ensures Extends(s, Run(s, events))
    decreases |events|
  {
    if events != [] {
      var t := Step(s, events[0]);
      StepExtends(s, events[0]);
      StepKeeps(s, events[0]);
      RunExtends(t, events[1..]);
      ExtendsTrans(s, t, Run(t, events[1..]));
    }
  }

  lemma RunKeepsSize(s: State, events: seq<Event>)
    requires Inv(s)
    ensures Run(s, events).entries == s.entries
  {
    RunExtends(s, events);
  }

  /** Buffers die in allocation order, whatever order handles are dropped in: the buffers with the
      serial numbers below |gone| are exactly the destroyed ones, and the tail is the end of one of
      them or the ring's initial end. */
  lemma DestructionOrder(entries: nat, events: seq<Event>)
    requires entries >= 3
    ensures var t := Run(Init(entries), events);
            && (forall k :: 0 <= k < |t.gone| ==> t.gone[k].serial == k)
            && (forall k :: 0 <= k < |t.live| ==> t.live[k].serial == |t.gone| + k)
            && (t.i1 == entries || exists k :: 0 <= k < |t.gone| && t.gone[k].cursor == t.i1)
  {
    RunKeepsSize(Init(entries), events);
  }

  // ---------------------------------------------------------------- capacity

  /** Once every handle is gone, in whatever order, and the destructors have run, no buffer is left and
      the whole ring is free: every request of at least three words succeeds again. */
  lemma CapacityRecovers(entries: nat, events: seq<Event>, n: nat)
    requires entries >= 3 && Odd(n) && !Dying(Run(Init(entries), events))
    requires var t := Run(Init(entries), events);
             forall k :: 0 <= k < |t.live| ==> t.live[k].handles == 0
    ensures var t := Run(Init(entries), events);
            && t.live == [] && t.i0 == t.i1 && t.hasSpace
            && Available(t) == OddAvailable(entries) > 0
            && |Alloc(t, n).live| == 1
  {
    RunKeepsSize(Init(entries), events);
    AllocOutcome(Run(Init(entries), events), n);
  }

  // ---------------------------------------------------------------- wakeups

  /** A request that fails does so while some buffer is undestroyed, and leaves a note. */
  lemma FailureIsNoted(s: State, n: nat)
    requires Inv(s) && Odd(n)
    ensures var t := Alloc(s, n);
            |t.live| == |s.live| ==> s.live != [] && t == s.(failedAlloc := true)
  {
    AllocOutcome(s, n);
  }

  /** While the note of a failure stands some buffer is undestroyed, and by the time the last of them
      is destroyed `freeCallback` has run. */
  lemma NoLostWakeup(entries: nat, before: seq<Event>, after: seq<Event>)
    requires entries >= 3
    ensures var s := Run(Init(entries), before);
            var t := Run(s, after);
            s.failedAlloc ==> s.live != [] && (t.live == [] ==> t.wakeups > s.wakeups)
  {
    RunExtends(Run(Init(entries), before), after);
  }

  /** The note of a failure survives no wakeup-less move of the tail: until `freeCallback` is called, the
      note stands and the tail stays where it is. */
  ghost predicate NoteStands(s: State, t: State) {
    s.failedAlloc && t.wakeups == s.wakeups ==> t.failedAlloc && t.i1 == s.i1
  }

  lemma DestroyNotes(s: State)
    requires |s.live| > 0
    ensures NoteStands(s, DestroyOldest(s))
  {
    DestroyFrees(s);
  }

  lemma StepNotes(s: State, e: Event)
    requires Inv(s)
    ensures NoteStands(s, Step(s, e))
  {
    match e
    case Request(n) => if Odd(n) { AllocOutcome(s, n); }
    case Copy(k) =>
    case Drop(k) => if Held(s, k) { DropNotes(s, k); }
    case Release(k) =>
    case Destroy => if Dying(s) { DestroyNotes(s); }
    case DestroyAsking(n) => if Dying(s) && Odd(n) { AskedNotes(s, n); }
  }

  lemma DropNotes(s: State, k: nat)
    requires Held(s, k)
    ensures NoteStands(s, DropHandle(s, k))
  {
    CascadeFrees(SetHandles(s, k, s.live[k].handles - 1));
  }

  lemma AskedNotes(s: State, n: nat)
    requires Inv(s) && Dying(s) && Odd(n)
    ensures NoteStands(s, Asked(s, n))
  {
    DestroyNotes(s);
    DestroyKeeps(s);
    AllocOutcome(DestroyOldest(s), n);
  }

  /** Over any run: while `freeCallback` has not been called since a request failed, the tail has not
      moved, so nothing has been given back. */
  lemma {:induction false} NoteSurvivesNoMove(s: State, events: seq<Event>)
    requires Inv(s)
    ensures NoteStands(s, Run(s, events))
    decreases |events|
  {
    if events != [] {
      var t := Step(s, events[0]);
      StepNotes(s, events[0]);
      StepKeeps(s, events[0]);
      StepExtends(s, events[0]);
      RunExtends(t, events[1..]);
      NoteSurvivesNoMove(t, events[1..]);
    }
  }

  /** A copied handle that is released leaves everything as it was. */
  lemma CopyIsUndone(s: State, k: nat)
    requires Inv(s) && Held(s, k)
    ensures Inv(Step(s, Copy(k))) && Step(Step(s, Copy(k)), Release(k)) == s
  {
    StepKeeps(s, Copy(k));
    var t := SetHandles(s, k, s.live[k].handles + 1);
    assert SetHandles(t, k, s.live[k].handles).live == s.live;
  }

  // ---------------------------------------------------------------- available

  /** What a successful request returns: an odd number of words, no more than asked for and no more
      than `available() + 1`; if less than asked for, then all but three of what was available. */
  predicate FairShare(s: State, n: nat, b: Buf)
    requires s.i0 <= s.entries
  {
    var total := b.first.len + b.second.len;
    && total % 2 == 1 && total <= n && total <= Available(s) + 1
    && (total == n || total + 3 >= Available(s))
  }

  lemma ShareBeforeTail(s: State, n: nat)
    requires Inv(s) && Odd(n) && s.i0 < s.i1 && s.i1 - s.i0 >= 3
    ensures var t := Alloc(s, n); |t.live| > |s.live| && FairShare(s, n, t.live[|s.live|])
  {
    var l := PartLength(n, s.i1 - s.i0);
    var b := Buf(Span(s.i0, l), NO_SPAN, s.i0 + l, 1, |s.gone| + |s.live|);
    assert Alloc(s, n).live == s.live + [b];
  }

  lemma ShareTwoPieces(s: State, n: nat)
    requires Inv(s) && Odd(n) && s.i0 >= s.i1 && s.hasSpace && s.entries - s.i0 >= 3
    ensures var t := Alloc(s, n); |t.live| > |s.live| && FairShare(s, n, t.live[|s.live|])
  {
    AllocTwoPieces(s, n);
    var l1 := PartLength(n, s.entries - s.i0);
    var l2 := PartLength(n - l1, s.i1);
    TwoPieceTotal(s, n, l1, l2);
  }

  lemma TwoPieceTotal(s: State, n: nat, l1: nat, l2: nat)
    requires s.i1 <= s.i0 <= s.entries && s.entries - s.i0 >= 3 && s.i1 >= 2
    requires Odd(n) && s.hasSpace
    requires l1 == PartLength(n, s.entries - s.i0) && l2 == PartLength(n - l1, s.i1)
    ensures (l1 + l2) % 2 == 1 && l1 + l2 <= n && l1 + l2 <= Available(s) + 1
    ensures l1 + l2 == n || l1 + l2 + 3 >= Available(s)
  {
    var a, b := s.entries - s.i0, s.i1;
    OddPart(n, a, l1);
    EvenPart(n - l1, b, l2);
    if s.i0 == s.i1 {
      WholeRing(n, a, b, l1, l2);
    } else {
      TwoEnds(n, a, b, l1, l2);
    }
  }

  lemma OddPart(n: nat, a: nat, l: nat)
    requires Odd(n) && a >= 3 && l == PartLength(n, a)
    ensures l % 2 == 1 && (l == n <= a || l == (if a % 2 == 1 then a else a - 1) <= n)
  {
  }

  lemma EvenPart(n: int, b: nat, l: nat)
    requires 0 <= n && n % 2 == 0 && b >= 2 && l == PartLength(n, b)
    ensures l % 2 == 0 && (l == n <= b || l == (if b % 2 == 1 then b - 1 else b) <= n)
  {
  }

  lemma WholeRing(n: nat, a: nat, b: nat, l1: nat, l2: nat)
    requires n % 2 == 1 && (l1 == n <= a || l1 == (if a % 2 == 1 then a else a - 1) <= n)
    requires a >= 3 && b >= 2 && (l2 == n - l1 <= b || l2 == (if b % 2 == 1 then b - 1 else b) <= n - l1)
    ensures l1 + l2 <= OddAvailable(a + b) + 1 && (l1 + l2 == n || l1 + l2 + 3 >= OddAvailable(a + b))
  {
  }

  lemma TwoEnds(n: nat, a: nat, b: nat, l1: nat, l2: nat)
    requires n % 2 == 1 && (l1 == n <= a || l1 == (if a % 2 == 1 then a else a - 1) <= n)
    requires a >= 3 && b >= 2 && (l2 == n - l1 <= b || l2 == (if b % 2 == 1 then b - 1 else b) <= n - l1)
    ensures l1 + l2 <= OddAvailable(a) + EvenAvailable(b) + 1
    ensures l1 + l2 == n || l1 + l2 + 3 >= OddAvailable(a) + EvenAvailable(b)
  {
  }

  lemma ShareAtFront(s: State, n: nat)
    requires Inv(s) && Odd(n) && s.i0 >= s.i1 && s.hasSpace
    requires s.entries - s.i0 < 3 <= s.i1
    ensures var t := Alloc(s, n); |t.live| > |s.live| && FairShare(s, n, t.live[|s.live|])
  {
    var l := PartLength(n, s.i1);
    var b := Buf(Span(0, l), NO_SPAN, l, 1, |s.gone| + |s.live|);
    assert Alloc(s, n).live == s.live + [b];
  }

  /** `available` against `alloc`: a request succeeds exactly when `available` is positive and the
      ring is not in the state where the write end has passed the tail while `hasSpace` is still
      down. */
  lemma AvailableAgrees(s: State, n: nat)
    requires Inv(s) && Odd(n)
    ensures var t := Alloc(s, n);
            && (|t.live| > |s.live| <==> Available(s) > 0 && (s.i0 < s.i1 || s.hasSpace))
            && (|t.live| > |s.live| ==> FairShare(s, n, t.live[|s.live|]))
  {
    AllocOutcome(s, n);
    if Room(s) {
      if s.i0 < s.i1 { ShareBeforeTail(s, n); }
      else if s.entries - s.i0 >= 3 { ShareTwoPieces(s, n); } else { ShareAtFront(s, n); }
    }
  }

  lemma RunStep(s: State, e: Event, rest: seq<Event>)
    requires Inv(s)
    ensures Inv(Step(s, e)) && Run(s, [e] + rest) == Run(Step(s, e), rest)
  {
    StepKeeps(s, e);
    assert ([e] + rest)[1..] == rest;
  }

  function Stuck(k: nat, handles: seq<nat>): seq<Buf>
    requires |handles| <= 3
  {
    seq(|handles|, i requires 0 <= i < |handles| =>
      Buf(Span(3 * (k + i), 3), NO_SPAN, 3 * (k + i) + 3, handles[i], k + i))
  }

  lemma OverstateFill()
    ensures var s := Run(Init(9), [Request(3), Request(3), Request(3)]);
            s == State(9, 9, 9, false, false, Stuck(0, [1, 1, 1]), [], 0)
  {
    var s0 := Init(9);
    var s1 := State(9, 3, 9, true, false, Stuck(0, [1]), [], 0);
    var s2 := State(9, 6, 9, true, false, Stuck(0, [1, 1]), [], 0);
    var s3 := State(9, 9, 9, false, false, Stuck(0, [1, 1, 1]), [], 0);
    assert Step(s0, Request(3)) == s1;
    assert Step(s1, Request(3)).live == s2.live;
    assert Step(s2, Request(3)).live == s3.live;
    RunStep(s0, Request(3), [Request(3), Request(3)]);
    RunStep(s1, Request(3), [Request(3)]);
    RunStep(s2, Request(3), []);
  }

  lemma OverstateDrain(s: State)
    requires s == State(9, 9, 9, false, false, Stuck(0, [1, 1, 1]), [], 0)
    ensures Held(s, 1)
    ensures var t := DropHandle(s, 1);
            && t == s.(live := Stuck(0, [1, 0, 1])) && Held(t, 0)
            && DropHandle(t, 0) == State(9, 9, 3, false, false, Stuck(2, [1]), Stuck(0, [0, 0]), 0)
  {
    var t := SetHandles(s, 1, 0);
    assert t.live == Stuck(0, [1, 0, 1]);
    var r := SetHandles(t, 0, 0);
    assert r.live == Stuck(0, [0, 0, 1]);
    var r1 := DestroyOldest(r);
    assert r1.live == Stuck(1, [0, 1]) && r1.gone == Stuck(0, [0]);
    var r2 := DestroyOldest(r1);
    assert r2.live == Stuck(2, [1]) && r2.gone == Stuck(0, [0, 0]);
    assert Cascade(r) == Cascade(r1) == Cascade(r2) == r2;
  }

  /** The exception is reachable: three buffers fill a ring of nine words, the first two go away
      while the third is held, and `available` reports two words that `alloc` refuses. */
  lemma AvailableOverstates()
    ensures var s := Run(Init(9), [Request(3), Request(3), Request(3)]);
            var t := Run(s, [Drop(1), Drop(0)]);
            Available(t) == 2 && |t.live| == 1 && Alloc(t, 3) == FailedAlloc(t)
  {
    OverstateFill();
    var s := Run(Init(9), [Request(3), Request(3), Request(3)]);
    OverstateDrain(s);
    RunTwo(s, Drop(1), Drop(0));
  }

  lemma RunTwo(s: State, d: Event, e: Event)
    requires Inv(s)
    ensures Inv(Step(s, d)) && Run(s, [d, e]) == Step(Step(s, d), e)
  {
    assert [d] + [e] == [d, e];
    RunStep(s, d, [e]);
    RunStep(Step(s, d), e, []);
  }

  // ---------------------------------------------------------------- a destructor that comes late

  function Piece(off: nat, len: nat, wrapped: nat, serial: nat): Buf {
    Buf(Span(off, len), Span(0, wrapped), if wrapped == 0 then off + len else wrapped, 1, serial)
  }

  /** What the exclusion in `Step` is for.  On a ring of fifteen words a buffer of three has lost its
      last reference, but its destructor, on another thread, has not reached `free` yet; it can no
      longer be locked.  A second buffer is requested and dropped, a third is requested, and only then
      does the first one's `free` move the tail: back, into the third buffer, and the next request
      gets words that the third buffer owns. */
  lemma LateFreeOverlaps() returns (s: State, t: State, u: State, v: State, w: State)
    ensures s == Run(Init(15), [Request(3)]) && |s.live| == 1 && s.i0 <= s.entries
    ensures t == Step(Retire(s), Request(5)) && t.i0 <= t.entries
    ensures u == Step(t, Drop(0)) && u.i0 <= u.entries
    ensures v == Step(u, Request(11)) && v.i0 <= v.entries
    ensures w == Alloc(Free(v, s.live[0].cursor), 11)
    ensures |w.live| == 2 && Covers(w.live[0], 8) && Covers(w.live[1], 8)
  {
    var x, y := Piece(0, 3, 0, 0), Piece(3, 5, 0, 1);
    s := State(15, 3, 15, true, false, [x], [], 0);
    assert Step(Init(15), Request(3)).live == s.live;
    RunStep(Init(15), Request(3), []);
    t, u := State(15, 8, 15, true, false, [y], [x], 0), State(15, 8, 8, true, false, [], [x, y.(handles := 0)], 0);
    LateStart(Retire(s), x, y);
    v := Step(u, Request(11));
    w := Alloc(Free(v, 3), 11);
    LateEnd(u, v);
  }

  lemma LateStart(s: State, x: Buf, y: Buf)
    requires s == State(15, 3, 15, true, false, [], [x], 0) && y == Piece(3, 5, 0, 1)
    ensures var t := State(15, 8, 15, true, false, [y], [x], 0);
            && Step(s, Request(5)) == t
            && Step(t, Drop(0)) == State(15, 8, 8, true, false, [], [x, y.(handles := 0)], 0)
  {
    assert Step(s, Request(5)).live == [y];
    var r := SetHandles(State(15, 8, 15, true, false, [y], [x], 0), 0, 0);
    assert r.live == [y.(handles := 0)];
    assert Cascade(r) == Cascade(DestroyOldest(r)) == DestroyOldest(r);
  }

  lemma LateEnd(u: State, v: State)
    requires u.entries == 15 && u.i0 == u.i1 == 8 && u.hasSpace && !u.failedAlloc && u.live == []
    requires v == Step(u, Request(11))
    ensures v.i0 <= v.entries
    ensures var w := Alloc(Free(v, 3), 11);
            |w.live| == 2 && Covers(w.live[0], 8) && Covers(w.live[1], 8)
  {
  }
}
