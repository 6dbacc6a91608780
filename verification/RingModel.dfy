/** The abstract state of the cyclic result queue: the two ring cursors, the two flags, and the
    buffers that have not been destroyed yet, oldest first.  Every transition is the value-level
    counterpart of one member of `CyclicQueue`; the class in CyclicQueue.dfy is proved to perform
    exactly these transitions. */
module RingModel {
  /** A region of the ring's storage: `len` words from index `off`. */
  datatype Span = Span(off: nat, len: nat)

  const NO_SPAN := Span(0, 0)

  /** A buffer handed out by `alloc`.  `handles` counts the shared pointers held outside the queue,
      `serial` is the position of the buffer in allocation order. */
  datatype Buf = Buf(first: Span, second: Span, cursor: nat, handles: nat, serial: nat)

  /** `gone` lists the destroyed buffers in destruction order and `wakeups` counts the calls of
      `freeCallback`; both only record history. */
  datatype State = State(entries: nat, i0: nat, i1: nat, hasSpace: bool, failedAlloc: bool,
                         live: seq<Buf>, gone: seq<Buf>, wakeups: nat)

  function Init(entries: nat): (s: State)
    requires entries >= 3
    ensures Inv(s)
  {
    State(entries, entries, entries, true, false, [], [], 0)
  }

  // ---------------------------------------------------------------- transitions

  function OddAvailable(n: nat): (r: nat)
    ensures r % 2 == 0 && (n < 3 ==> r == 0) && (n >= 3 ==> n - 1 <= r <= n)
  {
    if n < 3 then 0 else if n % 2 == 1 then n - 1 else n
  }

  function EvenAvailable(n: nat): (r: nat)
    ensures r % 2 == 0 && n - 1 <= r <= n
  {
    if n < 2 then 0 else if n % 2 == 1 then n - 1 else n
  }

  function Available(s: State): nat
    requires s.i0 <= s.entries
  {
    if s.i0 < s.i1 then OddAvailable(s.i1 - s.i0)
    else if s.i0 == s.i1 then (if s.hasSpace then OddAvailable(s.entries) else 0)
    else
      var tail := OddAvailable(s.entries - s.i0);
      if tail == 0 then OddAvailable(s.i1) else tail + EvenAvailable(s.i1)
  }

  /** The length `alloc_part` cuts off: the largest of the request's parity that fits, or nothing
      when that leaves fewer than two words. */
  function PartLength(n: nat, maxLen: nat): (len: nat)
    ensures len <= n && len <= maxLen
    ensures len == 0 <==> n < 2 || maxLen < 2 || (n % 2 == 1 && maxLen < 3)
    ensures len > 0 ==> len % 2 == n % 2 && len >= 2 && (len == n || len + 1 >= maxLen)
  {
    var len := if n > maxLen then maxLen else n;
    var cut := if len > 0 && len % 2 != n % 2 then len - 1 else len;
    if cut < 2 then 0 else cut
  }

  /** What one call of `alloc_part` leaves behind: the span, the state, the words still wanted. */
  datatype Part = Part(span: Span, state: State, rest: nat)

  function AllocPart(s: State, j0: nat, n: nat, maxLen: nat): Part
  {
    var len := PartLength(n, maxLen);
    if len == 0 then Part(NO_SPAN, s, n)
    else Part(Span(j0, len), s.(i0 := j0 + len, hasSpace := j0 + len != s.i1), n - len)
  }

  function FailedAlloc(s: State): State {
    s.(failedAlloc := true)
  }

  function Append(s: State, first: Span, second: Span): State {
    s.(live := s.live + [Buf(first, second, s.i0, 1, |s.gone| + |s.live|)])
  }

  /** `alloc`: the new state; the request succeeded iff `live` grew. */
  function Alloc(s: State, n: nat): State
    requires s.i0 <= s.entries
  {
    if s.i0 < s.i1 then
      var p := AllocPart(s, s.i0, n, s.i1 - s.i0);
      if p.span.len == 0 then FailedAlloc(p.state) else Append(p.state, p.span, NO_SPAN)
    else if !s.hasSpace then FailedAlloc(s)
    else
      var p := AllocPart(s, s.i0, n, s.entries - s.i0);
      if p.span.len == 0 then
        var q := AllocPart(p.state, 0, p.rest, s.i1);
        if q.span.len == 0 then FailedAlloc(q.state) else Append(q.state, q.span, NO_SPAN)
      else
        var q := AllocPart(p.state, 0, p.rest, s.i1);
        Append(q.state, p.span, q.span)
  }

  function Free(s: State, cursor: nat): State {
    var s := s.(i1 := cursor, hasSpace := s.hasSpace || s.i0 == cursor);
    if s.failedAlloc then s.(failedAlloc := false, wakeups := s.wakeups + 1) else s
  }

  function SetHandles(s: State, k: nat, h: nat): State
    requires k < |s.live|
  {
    s.(live := s.live[k := s.live[k].(handles := h)])
  }

  /** The oldest buffer has lost its last reference.  Its destructor gives the space back only when
      the successor is absent or is kept alive by this buffer alone. */
  predicate Dying(s: State) {
    |s.live| > 0 && s.live[0].handles == 0
  }

  /** The tail's move, without the removal of the buffer. */
  function Freed(s: State): State
    requires |s.live| > 0
  {
    if |s.live| == 1 || s.live[1].handles == 0 then Free(s, s.live[0].cursor) else s
  }

  function Retire(s: State): State
    requires |s.live| > 0
  {
    s.(live := s.live[1..], gone := s.gone + [s.live[0]])
  }

  function DestroyOldest(s: State): State
    requires |s.live| > 0
  {
    Retire(Freed(s))
  }

  /** The destructor of the oldest buffer with a callback that requests n words when it is called. */
  function Asked(s: State, n: nat): State
    requires |s.live| > 0 && s.i0 <= s.entries
  {
    var t := DestroyOldest(s);
    if t.wakeups > s.wakeups then Alloc(t, n) else t
  }

  /** The same with the request made before the oldest buffer is removed. */
  function Unretired(s: State, n: nat): State
    requires |s.live| > 0 && s.i0 <= s.entries
  {
    var f := Freed(s);
    if f.wakeups > s.wakeups then Alloc(f, n) else f
  }

  /** t is u with the oldest buffer still in the chain. */
  predicate Before(t: State, u: State, oldest: Buf) {
    |t.live| > 0 && t.live[0] == oldest && u == Retire(t)
  }

  lemma AppendBefore(t: State, u: State, oldest: Buf, first: Span, second: Span)
    requires Before(t, u, oldest)
    ensures Before(Append(t, first, second), Append(u, first, second), oldest)
  {
    var b := Buf(first, second, t.i0, 1, |t.gone| + |t.live|);
    assert (t.live + [b])[1..] == t.live[1..] + [b] && (t.live + [b])[0] == t.live[0];
  }

  lemma PartBefore(t: State, u: State, oldest: Buf, j0: nat, n: nat, maxLen: nat)
    requires Before(t, u, oldest)
    ensures var p, q := AllocPart(t, j0, n, maxLen), AllocPart(u, j0, n, maxLen);
            Before(p.state, q.state, oldest) && q == p.(state := q.state)
  {
  }

  lemma OnePartBefore(t: State, u: State, oldest: Buf, j0: nat, n: nat, maxLen: nat)
    requires Before(t, u, oldest)
    ensures var p, q := AllocPart(t, j0, n, maxLen), AllocPart(u, j0, n, maxLen);
            && q == p.(state := q.state)
            && Before(FailedAlloc(p.state), FailedAlloc(q.state), oldest)
            && Before(Append(p.state, p.span, NO_SPAN), Append(q.state, p.span, NO_SPAN), oldest)
  {
    PartBefore(t, u, oldest, j0, n, maxLen);
    var p, q := AllocPart(t, j0, n, maxLen), AllocPart(u, j0, n, maxLen);
    AppendBefore(p.state, q.state, oldest, p.span, NO_SPAN);
  }

  lemma SecondPartBefore(t: State, u: State, oldest: Buf, first: Span, n: nat, maxLen: nat)
    requires Before(t, u, oldest)
    ensures var p, q := AllocPart(t, 0, n, maxLen), AllocPart(u, 0, n, maxLen);
            q == p.(state := q.state)
            && Before(Append(p.state, first, p.span), Append(q.state, first, p.span), oldest)
  {
    PartBefore(t, u, oldest, 0, n, maxLen);
    var p, q := AllocPart(t, 0, n, maxLen), AllocPart(u, 0, n, maxLen);
    AppendBefore(p.state, q.state, oldest, first, p.span);
  }

  /** A request does not look at the buffers, so it may come before the oldest one is removed. */
  lemma AllocBefore(t: State, u: State, oldest: Buf, n: nat)
    requires Before(t, u, oldest) && t.i0 <= t.entries
    ensures Before(Alloc(t, n), Alloc(u, n), oldest)
  {
    if t.i0 < t.i1 {
      OnePartBefore(t, u, oldest, t.i0, n, t.i1 - t.i0);
    } else if t.hasSpace {
      PartBefore(t, u, oldest, t.i0, n, t.entries - t.i0);
      var p, q := AllocPart(t, t.i0, n, t.entries - t.i0), AllocPart(u, t.i0, n, t.entries - t.i0);
      OnePartBefore(p.state, q.state, oldest, 0, p.rest, t.i1);
      SecondPartBefore(p.state, q.state, oldest, p.span, p.rest, t.i1);
    }
  }

  lemma AskedInOrder(s: State, n: nat)
    requires |s.live| > 0 && s.i0 <= s.entries
    ensures Before(Unretired(s, n), Asked(s, n), s.live[0])
  {
    AllocBefore(Freed(s), Retire(Freed(s)), s.live[0], n);
  }

  function Cascade(s: State): State
    decreases |s.live|
  {
    if Dying(s) then Cascade(DestroyOldest(s)) else s
  }

  /** One handle of buffer k goes away and the whole destructor cascade runs. */
  function DropHandle(s: State, k: nat): State
    requires k < |s.live| && s.live[k].handles > 0
  {
    Cascade(SetHandles(s, k, s.live[k].handles - 1))
  }

  /** `Request`, `Copy` and `Drop` are what users of the queue can do.  `Release` and `Destroy` are
      the steps a `Drop` consists of: with them a run can put steps of other threads before a
      destructor and between two of them.  `DestroyAsking` is a destructor whose `freeCallback`
      requests n words. */
  datatype Event = Request(n: nat) | Copy(k: nat) | Drop(k: nat)
                 | Release(k: nat) | Destroy | DestroyAsking(n: nat)

  predicate Held(s: State, k: nat) {
    k < |s.live| && s.live[k].handles > 0
  }

  /** Only one buffer is undestroyed, and nobody can lock it any more. */
  predicate NewestIsDying(s: State) {
    |s.live| == 1 && s.live[0].handles == 0
  }

  predicate Odd(n: nat) {
    n >= 3 && n % 2 == 1
  }

  /** A call that the source asserts against (an even request, a handle nobody holds) is no step, and
      neither is a request of another thread after the newest buffer's last reference has gone and
      before its destructor has run: the new buffer would be linked from nowhere, and the destructor
      would move the tail only afterwards.  See RingTheorems.LateFreeOverlaps. */
  function Step(s: State, e: Event): State
    requires s.i0 <= s.entries
  {
    match e
    case Request(n) => if Odd(n) && !NewestIsDying(s) then Alloc(s, n) else s
    case Copy(k) => if Held(s, k) then SetHandles(s, k, s.live[k].handles + 1) else s
    case Drop(k) => if Held(s, k) then DropHandle(s, k) else s
    case Release(k) => if Held(s, k) then SetHandles(s, k, s.live[k].handles - 1) else s
    case Destroy => if Dying(s) then DestroyOldest(s) else s
    case DestroyAsking(n) => if Dying(s) && Odd(n) then Asked(s, n) else s
  }

  // ---------------------------------------------------------------- the invariant

  /** Boundaries of a ring of n words on the unrolled line that starts at the tail i1: ends lie in
      (i1, i1 + n] and starts in [i1, i1 + n). */
  function End(n: nat, i1: nat, x: nat): nat {
    if x <= i1 then x + n else x
  }

  function Start(n: nat, i1: nat, x: nat): nat {
    if x < i1 then x + n else x
  }

  /** The parities the device layout relies on: an odd first piece of at least three words that
      starts with the result count, and an even second piece at the start of the ring. */
  predicate Shaped(n: nat, b: Buf) {
    && b.first.len % 2 == 1 && b.first.len >= 3 && b.first.off + b.first.len <= n
    && b.second.len % 2 == 0 && b.second.off == 0
    && b.cursor == (if b.second.len == 0 then b.first.off + b.first.len else b.second.len)
  }

  /** The pieces of b are contiguous on the unrolled line, or the first stops short of the ring's
      end and the second follows from there. */
  predicate Located(n: nat, i1: nat, b: Buf) {
    if b.second.len == 0 then
      End(n, i1, b.cursor) == Start(n, i1, b.first.off) + b.first.len
    else
      && Start(n, i1, b.first.off) + b.first.len <= n
      && End(n, i1, b.cursor) == n + b.second.len
  }

  predicate Precedes(n: nat, i1: nat, a: Buf, b: Buf) {
    End(n, i1, a.cursor) <= Start(n, i1, b.first.off)
  }

  /** The undestroyed buffers tile disjoint stretches between i1 and i0, in allocation order. */
  ghost predicate Chain(n: nat, i1: nat, i0: nat, live: seq<Buf>) {
    && (forall k :: 0 <= k < |live| ==> Located(n, i1, live[k]))
    && (forall j, k :: 0 <= j < k < |live| ==> Precedes(n, i1, live[j], live[k]))
    && (live != [] ==> live[|live| - 1].cursor == i0)
  }

  ghost predicate Parities(n: nat, live: seq<Buf>) {
    forall k :: 0 <= k < |live| ==> Shaped(n, live[k])
  }

  /** Destruction has followed allocation order so far. */
  ghost predicate InOrder(gone: seq<Buf>, live: seq<Buf>) {
    && (forall k :: 0 <= k < |live| ==> live[k].serial == |gone| + k)
    && (forall k :: 0 <= k < |gone| ==> gone[k].serial == k)
  }

  ghost predicate TailIsDead(n: nat, i1: nat, gone: seq<Buf>) {
    i1 == n || exists k :: 0 <= k < |gone| && gone[k].cursor == i1
  }

  predicate Flags(s: State) {
    if s.live == [] then s.i0 == s.i1 && s.hasSpace && !s.failedAlloc
    else s.i0 == s.i1 ==> !s.hasSpace
  }

  predicate GoodCursor(n: nat, x: nat) {
    2 <= x <= n && (x == 2 ==> n >= 5)
  }

  ghost predicate Inv(s: State) {
    && s.entries >= 3 && GoodCursor(s.entries, s.i0) && GoodCursor(s.entries, s.i1) && Flags(s)
    && Parities(s.entries, s.live) && Chain(s.entries, s.i1, s.i0, s.live)
    && InOrder(s.gone, s.live) && TailIsDead(s.entries, s.i1, s.gone)
  }

  // ---------------------------------------------------------------- preservation

  /** A region that starts at or after the write end extends the chain. */
  lemma ChainGrows(n: nat, i1: nat, i0: nat, live: seq<Buf>, b: Buf)
    requires Chain(n, i1, i0, live) && Located(n, i1, b)
    requires live != [] ==> End(n, i1, i0) <= Start(n, i1, b.first.off)
    ensures Chain(n, i1, b.cursor, live + [b])
  {
    forall j | 0 <= j < |live| ensures Precedes(n, i1, live[j], b) {
      var last := live[|live| - 1];
      if j < |live| - 1 {
        assert Precedes(n, i1, live[j], last) && Located(n, i1, last);
      }
    }
  }

  ghost predicate Appended(s: State, t: State, b: Buf) {
    && t == s.(i0 := b.cursor, hasSpace := b.cursor != s.i1, live := s.live + [b])
    && b.handles == 1 && b.serial == |s.gone| + |s.live|
    && GoodCursor(s.entries, b.cursor) && Shaped(s.entries, b) && Located(s.entries, s.i1, b)
    && (s.live != [] ==> End(s.entries, s.i1, s.i0) <= Start(s.entries, s.i1, b.first.off))
  }

  lemma AllocBeforeTail(s: State, n: nat)
    requires GoodCursor(s.entries, s.i0) && GoodCursor(s.entries, s.i1)
    requires Odd(n) && s.i0 < s.i1
    ensures var t := Alloc(s, n);
            if s.i1 - s.i0 < 3 then t == FailedAlloc(s)
            else t.live != [] && Appended(s, t, t.live[|t.live| - 1])
  {
    var p := AllocPart(s, s.i0, n, s.i1 - s.i0);
    if s.i1 - s.i0 >= 3 {
      var b := Buf(p.span, NO_SPAN, p.state.i0, 1, |s.gone| + |s.live|);
      assert Alloc(s, n).live == s.live + [b];
    }
  }

  lemma PiecesFit(n: nat, i0: nat, i1: nat, b: Buf)
    requires GoodCursor(n, i0) && GoodCursor(n, i1) && i0 >= i1
    requires b.first.off == i0 && b.first.len % 2 == 1 && 3 <= b.first.len <= n - i0
    requires b.second.len % 2 == 0 && b.second.len <= i1 && b.second.off == 0
    requires b.cursor == if b.second.len == 0 then i0 + b.first.len else b.second.len
    ensures GoodCursor(n, b.cursor) && Shaped(n, b) && Located(n, i1, b)
  {
  }

  lemma AllocTwoPieces(s: State, n: nat)
    requires GoodCursor(s.entries, s.i0) && GoodCursor(s.entries, s.i1) && Flags(s)
    requires Odd(n) && s.i0 >= s.i1 && s.hasSpace && s.entries - s.i0 >= 3
    ensures var t := Alloc(s, n);
            var l1 := PartLength(n, s.entries - s.i0);
            && t.live != [] && Appended(s, t, t.live[|t.live| - 1])
            && t.live[|t.live| - 1].first.len == l1
            && t.live[|t.live| - 1].second.len == PartLength(n - l1, s.i1)
  {
    var l1 := PartLength(n, s.entries - s.i0);
    var l2 := PartLength(n - l1, s.i1);
    var b := Buf(Span(s.i0, l1), Span(0, l2), if l2 == 0 then s.i0 + l1 else l2,
                 1, |s.gone| + |s.live|);
    PiecesFit(s.entries, s.i0, s.i1, b);
    TwoParts(s, n, b);
  }

  lemma TwoParts(s: State, n: nat, b: Buf)
    requires s.i0 >= s.i1 && s.hasSpace && s.i0 <= s.entries && b.first.len > 0
    requires b.first == Span(s.i0, PartLength(n, s.entries - s.i0))
    requires b.second == Span(0, PartLength(n - b.first.len, s.i1))
    requires b.cursor == if b.second.len == 0 then s.i0 + b.first.len else b.second.len
    requires b.handles == 1 && b.serial == |s.gone| + |s.live|
    ensures Alloc(s, n) == s.(i0 := b.cursor, hasSpace := b.cursor != s.i1, live := s.live + [b])
  {
  }

  lemma AllocAtFront(s: State, n: nat)
    requires GoodCursor(s.entries, s.i0) && GoodCursor(s.entries, s.i1) && Flags(s)
    requires Odd(n) && s.i0 >= s.i1 && s.hasSpace && s.entries - s.i0 < 3
    ensures var t := Alloc(s, n);
            if s.i1 < 3 then t == FailedAlloc(s)
            else t.live != [] && Appended(s, t, t.live[|t.live| - 1])
  {
    var q := AllocPart(s, 0, n, s.i1);
    if s.i1 >= 3 {
      var b := Buf(q.span, NO_SPAN, q.state.i0, 1, |s.gone| + |s.live|);
      assert Alloc(s, n).live == s.live + [b];
    }
  }

  lemma AppendKeeps(s: State, t: State, b: Buf)
    requires Inv(s) && Appended(s, t, b)
    ensures Inv(t)
  {
    ChainGrows(s.entries, s.i1, s.i0, s.live, b);
  }

  /** The room a request finds: a request of at least three words succeeds exactly when this is so. */
  predicate Room(s: State) {
    if s.i0 < s.i1 then s.i1 - s.i0 >= 3
    else s.hasSpace && s.i0 <= s.entries && (s.entries - s.i0 >= 3 || s.i1 >= 3)
  }

  lemma AllocOutcome(s: State, n: nat)
    requires GoodCursor(s.entries, s.i0) && GoodCursor(s.entries, s.i1) && Flags(s)
    requires Odd(n)
    ensures var t := Alloc(s, n);
            if Room(s) then t.live != [] && Appended(s, t, t.live[|t.live| - 1])
            else t == FailedAlloc(s)
  {
    if s.i0 < s.i1 { AllocBeforeTail(s, n); }
    else if s.hasSpace && s.entries - s.i0 >= 3 { AllocTwoPieces(s, n); }
    else if s.hasSpace { AllocAtFront(s, n); }
  }

  /** The largest odd number up to n, and the largest even one. */
  predicate LargestOdd(l: nat, n: nat) {
    l % 2 == 1 && l <= n < l + 2
  }

  predicate LargestEven(l: nat, n: nat) {
    l % 2 == 0 && l <= n < l + 2
  }

  function Least(a: nat, b: nat): (m: nat)
    ensures m <= a && m <= b && (m == a || m == b)
  {
    if a < b then a else b
  }

  /** Where a request that finds room gets its words: the first piece follows the write end, or the
      ring's start if fewer than three words are left before its end; it is as long as the request and
      the space there allow, and the second piece takes what is still wanted from the ring's start. */
  lemma AllocPlaces(s: State, n: nat)
    requires GoodCursor(s.entries, s.i0) && GoodCursor(s.entries, s.i1) && Flags(s) && Odd(n) && Room(s)
    ensures var live := Alloc(s, n).live;
            && live != []
            && var b := live[|live| - 1];
            if s.i0 < s.i1 then
              b.first.off == s.i0 && LargestOdd(b.first.len, Least(n, s.i1 - s.i0)) && b.second.len == 0
            else if s.entries - s.i0 >= 3 then
              && b.first.off == s.i0 && LargestOdd(b.first.len, Least(n, s.entries - s.i0))
              && b.second.off == 0 && LargestEven(b.second.len, Least(n - b.first.len, s.i1))
            else
              b.first.off == 0 && LargestOdd(b.first.len, Least(n, s.i1)) && b.second.len == 0
  {
    if s.i0 >= s.i1 && s.entries - s.i0 >= 3 {
      TwoPartPlaces(s, n);
    }
  }

  lemma TwoPartPlaces(s: State, n: nat)
    requires GoodCursor(s.entries, s.i0) && GoodCursor(s.entries, s.i1) && Flags(s)
    requires Odd(n) && s.i0 >= s.i1 && s.hasSpace && s.entries - s.i0 >= 3
    ensures var live := Alloc(s, n).live;
            && live != []
            && var b := live[|live| - 1];
            && b.first.off == s.i0 && LargestOdd(b.first.len, Least(n, s.entries - s.i0))
            && b.second.off == 0 && LargestEven(b.second.len, Least(n - b.first.len, s.i1))
  {
    AllocTwoPieces(s, n);
  }

  lemma AllocKeeps(s: State, n: nat)
    requires Inv(s) && Odd(n)
    ensures Inv(Alloc(s, n))
  {
    AllocOutcome(s, n);
    var t := Alloc(s, n);
    if t != FailedAlloc(s) {
      AppendKeeps(s, t, t.live[|t.live| - 1]);
    }
  }

  /** Moving the tail up to the end of buffer a keeps the place of a later buffer b: positions on
      the unrolled line move down together, by a whole turn or not at all. */
  lemma PlaceShifts(n: nat, i1: nat, i1': nat, a: Buf, b: Buf)
    requires 2 <= i1 <= n && (i1' == i1 || i1' == a.cursor)
    requires Shaped(n, a) && Located(n, i1, a) && Shaped(n, b) && Located(n, i1, b)
    requires Precedes(n, i1, a, b)
    ensures Located(n, i1', b)
    ensures var turn := if i1' == i1 then 0 else End(n, i1, a.cursor) - a.cursor;
            && Start(n, i1', b.first.off) == Start(n, i1, b.first.off) - turn
            && End(n, i1', b.cursor) == End(n, i1, b.cursor) - turn
  {
  }

  lemma ChainShifts(n: nat, i1: nat, i1': nat, i0: nat, live: seq<Buf>)
    requires Parities(n, live) && Chain(n, i1, i0, live) && |live| > 0 && 2 <= i1 <= n
    requires i1' == i1 || i1' == live[0].cursor
    ensures Chain(n, i1', i0, live[1..])
  {
    var a := live[0];
    forall k | 0 < k < |live|
      ensures Located(n, i1', live[k])
      ensures var turn := if i1' == i1 then 0 else End(n, i1, a.cursor) - a.cursor;
              && Start(n, i1', live[k].first.off) == Start(n, i1, live[k].first.off) - turn
              && End(n, i1', live[k].cursor) == End(n, i1, live[k].cursor) - turn
    {
      PlaceShifts(n, i1, i1', a, live[k]);
    }
    forall j, k | 0 < j < k < |live| ensures Precedes(n, i1', live[j], live[k]) {
      assert Precedes(n, i1, live[j], live[k]);
    }
  }

  /** The only buffer whose end meets i0 is the newest one. */
  lemma FlagsShift(s: State)
    requires Inv(s) && |s.live| > 0
    ensures Flags(DestroyOldest(s))
  {
    var l := |s.live| - 1;
    if l > 0 {
      assert Shaped(s.entries, s.live[l]) && Located(s.entries, s.i1, s.live[l]);
      assert Precedes(s.entries, s.i1, s.live[0], s.live[l]);
      assert s.live[0].cursor != s.i0;
    }
  }

  lemma HistoryGrows(n: nat, i1: nat, i1': nat, gone: seq<Buf>, live: seq<Buf>)
    requires InOrder(gone, live) && TailIsDead(n, i1, gone) && |live| > 0
    requires i1' == i1 || i1' == live[0].cursor
    ensures InOrder(gone + [live[0]], live[1..]) && TailIsDead(n, i1', gone + [live[0]])
  {
    var gone' := gone + [live[0]];
    assert gone'[|gone|] == live[0];
    if i1' == i1 && i1 != n {
      var k :| 0 <= k < |gone| && gone[k].cursor == i1;
      assert gone'[k] == gone[k];
    }
  }

  lemma TailMoves(s: State)
    requires Inv(s) && |s.live| > 0
    ensures var t := DestroyOldest(s);
            && t.entries == s.entries && t.i0 == s.i0 && t.live == s.live[1..] && t.gone == s.gone + [s.live[0]]
            && (t.i1 == s.i1 || t.i1 == s.live[0].cursor) && GoodCursor(s.entries, t.i1)
  {
    assert Shaped(s.entries, s.live[0]) && Located(s.entries, s.i1, s.live[0]);
  }

  /** What a destructor does to the tail and the flags: it gives the space back, notes that the whole ring
      may be free, and calls `freeCallback` if a request has failed since the last call, but all that
      only if its successor is absent or held by it alone. */
  lemma DestroyFrees(s: State)
    requires |s.live| > 0
    ensures var t, b := DestroyOldest(s), s.live[0];
            if |s.live| == 1 || s.live[1].handles == 0 then
              && t.i1 == b.cursor && t.hasSpace == (s.hasSpace || s.i0 == b.cursor)
              && !t.failedAlloc && t.wakeups == s.wakeups + (if s.failedAlloc then 1 else 0)
            else
              t.i1 == s.i1 && t.hasSpace == s.hasSpace && t.failedAlloc == s.failedAlloc && t.wakeups == s.wakeups
    ensures var t := DestroyOldest(s);
            t.entries == s.entries && t.i0 == s.i0 && t.live == s.live[1..] && t.gone == s.gone + [s.live[0]]
  {
  }

  /** How many buffers a cascade destroys: those before the first that is held. */
  function Dead(live: seq<Buf>): (k: nat)
    ensures k <= |live| && (k < |live| ==> live[k].handles > 0)
    ensures forall i :: 0 <= i < k ==> live[i].handles == 0
  {
    if live != [] && live[0].handles == 0 then 1 + Dead(live[1..]) else 0
  }

  /** How many of these give their space back: all but one whose successor is held. */
  function Freeing(live: seq<Buf>): (f: nat)
    ensures f <= Dead(live)
  {
    if Dead(live) == |live| || Dead(live) == 0 then Dead(live) else Dead(live) - 1
  }

  /** What a whole cascade does, in one step. */
  lemma {:induction false} CascadeFrees(s: State)
    ensures var t, k, f := Cascade(s), Dead(s.live), Freeing(s.live);
            && t.entries == s.entries && t.i0 == s.i0 && t.live == s.live[k..] && t.gone == s.gone + s.live[..k]
            && t.i1 == (if f > 0 then s.live[f - 1].cursor else s.i1)
            && t.failedAlloc == (s.failedAlloc && f == 0)
            && t.wakeups == s.wakeups + (if s.failedAlloc && f > 0 then 1 else 0)
            && t.hasSpace == (s.hasSpace || exists i :: 0 <= i < f && s.live[i].cursor == s.i0)
    decreases |s.live|
  {
    if Dying(s) {
      var t := DestroyOldest(s);
      DestroyFrees(s);
      CascadeFrees(t);
      CascadeStep(s, t);
    }
  }

  lemma CascadeStep(s: State, t: State)
    requires Dying(s) && t == DestroyOldest(s)
    ensures var k, f, k', f' := Dead(s.live), Freeing(s.live), Dead(t.live), Freeing(t.live);
            && k == k' + 1 && s.live[k..] == t.live[k'..] && s.gone + s.live[..k] == t.gone + t.live[..k']
            && f == f' + (if |s.live| == 1 || s.live[1].handles == 0 then 1 else 0)
            && (f > 0 ==> f' > 0 || f == 1)
            && forall i :: 0 <= i < f' ==> s.live[i + 1] == t.live[i]
  {
    DestroyFrees(s);
  }

  lemma DestroyKeeps(s: State)
    requires Inv(s) && |s.live| > 0
    ensures Inv(DestroyOldest(s))
  {
    var t := DestroyOldest(s);
    TailMoves(s);
    ChainShifts(s.entries, s.i1, t.i1, s.i0, s.live);
    HistoryGrows(s.entries, s.i1, t.i1, s.gone, s.live);
    FlagsShift(s);
  }

  lemma HandlesKeep(s: State, k: nat, h: nat)
    requires Inv(s) && k < |s.live|
    ensures Inv(SetHandles(s, k, h))
  {
    var t := SetHandles(s, k, h);
    forall j | 0 <= j < |t.live|
      ensures t.live[j] == s.live[j].(handles := t.live[j].handles)
      ensures Shaped(t.entries, t.live[j]) && Located(t.entries, t.i1, t.live[j])
    {
      assert Shaped(s.entries, s.live[j]) && Located(s.entries, s.i1, s.live[j]);
    }
    forall i, j | 0 <= i < j < |t.live| ensures Precedes(t.entries, t.i1, t.live[i], t.live[j]) {
      assert Precedes(s.entries, s.i1, s.live[i], s.live[j]);
    }
  }

  lemma {:induction false} CascadeKeeps(s: State)
    requires Inv(s)
    ensures Inv(Cascade(s))
    decreases |s.live|
  {
    if Dying(s) {
      DestroyKeeps(s);
      CascadeKeeps(DestroyOldest(s));
    }
  }

  lemma StepKeeps(s: State, e: Event)
    requires Inv(s)
    ensures Inv(Step(s, e))
  {
    match e
    case Request(n) => if Odd(n) { AllocKeeps(s, n); }
    case Copy(k) => if Held(s, k) { HandlesKeep(s, k, s.live[k].handles + 1); }
    case Drop(k) =>
      if Held(s, k) {
        HandlesKeep(s, k, s.live[k].handles - 1);
        CascadeKeeps(SetHandles(s, k, s.live[k].handles - 1));
      }
    case Release(k) => if Held(s, k) { HandlesKeep(s, k, s.live[k].handles - 1); }
    case Destroy => if Dying(s) { DestroyKeeps(s); }
    case DestroyAsking(n) =>
      if Dying(s) && Odd(n) {
        DestroyKeeps(s);
        AllocKeeps(DestroyOldest(s), n);
      }
  }
}
