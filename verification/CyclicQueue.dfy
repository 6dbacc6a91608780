/** The cyclic result queue as the miner runs it: buffers are reference-counted objects linked
    through `next`, the queue remembers the newest of them through a weak pointer, and dropping a
    handle runs the cascade of destructors.  Each method is proved to make exactly the transition of
    the same name in RingModel, so the theorems of RingTheorems hold of these objects. */
module CyclicQueue {
  import opened RingModel

  class Buffer {
    const first: Span
    const second: Span
    const destructCursor: nat
    var next: Buffer?
    /** The strong count: outside handles plus one while the predecessor is undestroyed. */
    var useCount: nat

    constructor (first: Span, second: Span, destructCursor: nat)
      ensures this.first == first && this.second == second && this.destructCursor == destructCursor
      ensures next == null && useCount == 1
    {
      this.first, this.second, this.destructCursor := first, second, destructCursor;
      next, useCount := null, 1;
    }
  }

  ghost function Successor(live: seq<Buffer>, k: nat): Buffer? {
    if k + 1 < |live| then live[k + 1] else null
  }

  ghost predicate Represents(b: Buffer, v: Buf, oldest: bool, successor: Buffer?)
    reads b
  {
    && b.first == v.first && b.second == v.second && b.destructCursor == v.cursor
    && b.useCount == v.handles + (if oldest then 0 else 1)
    && b.next == successor
  }

  /** The objects `live` form the chain that the values `vs` describe. */
  ghost predicate Linked(live: seq<Buffer>, vs: seq<Buf>)
    reads live
  {
    && |live| == |vs|
    && (forall j, k :: 0 <= j < k < |live| ==> live[j] != live[k])
    && (forall k :: 0 <= k < |live| ==> Represents(live[k], vs[k], k == 0, Successor(live, k)))
  }

  /** The queue remembers the newest buffer, or what used to be the newest when none is left. */
  ghost predicate Remembered(prev: Buffer?, live: seq<Buffer>)
    reads prev
  {
    if live != [] then prev == live[|live| - 1] else prev == null || prev.useCount == 0
  }

  ghost function MaybeOne(b: Buffer?): seq<Buffer> {
    if b == null then [] else [b]
  }

  /** The newest buffer is not being destroyed. */
  predicate NewestIsAlive(vs: seq<Buf>) {
    |vs| == 1 ==> vs[0].handles > 0
  }

  lemma TailOfJoin(a: seq<Buffer>, b: seq<Buffer>)
    requires a != []
    ensures (a + b)[1..] == a[1..] + b && (a + b)[0] == a[0] && (|a| == 1 ==> a[1..] + b == b)
  {
  }

  /** now is a suffix of all, and what comes before it has been destroyed. */
  ghost predicate Left(all: seq<Buffer>, now: seq<Buffer>)
    reads all
  {
    && |now| <= |all| && now == all[|all| - |now|..]
    && forall k :: 0 <= k < |all| - |now| ==> all[k].useCount == 0
  }

  lemma FirstIsApart(live: seq<Buffer>, vs: seq<Buf>)
    requires Linked(live, vs) && live != []
    ensures live[0] !in live[1..]
  {
  }

  lemma SuffixOf(all: seq<Buffer>, rest: seq<Buffer>, now: seq<Buffer>)
    requires all != [] && rest == all[1..] && Left(rest, now) && all[0].useCount == 0
    ensures Left(all, now)
  {
    forall k | 0 <= k < |all| - |now| ensures all[k].useCount == 0 {
      if k > 0 { assert all[k] == rest[k - 1]; }
    }
  }

  method AddToCount(b: Buffer, delta: int, ghost k: nat, ghost live: seq<Buffer>, ghost vs: seq<Buf>)
    requires Linked(live, vs) && k < |live| && live[k] == b && vs[k].handles + delta >= 0
    modifies b`useCount
    ensures Linked(live, vs[k := vs[k].(handles := vs[k].handles + delta)])
    ensures b.useCount == 0 <==> k == 0 && vs[0].handles + delta == 0
  {
    assert Represents(b, vs[k], k == 0, Successor(live, k));
    b.useCount := b.useCount + delta;
  }

  /** `make_shared` followed by the link from the newest buffer, if that is still undestroyed. */
  method LinkNew(s1: Span, s2: Span, cursor: nat, prev: Buffer?, ghost v: Buf,
                 ghost live: seq<Buffer>, ghost vs: seq<Buf>)
    returns (res: Buffer)
    requires Linked(live, vs)
    requires Remembered(prev, live) && NewestIsAlive(vs)
    requires v.first == s1 && v.second == s2 && v.cursor == cursor && v.handles == 1
    modifies live
    ensures fresh(res) && res.useCount > 0 && Linked(live + [res], vs + [v])
  {
    res := new Buffer(s1, s2, cursor);
    if live != [] {
      assert Represents(prev, vs[|live| - 1], |live| == 1, Successor(live, |live| - 1));
    }
    if prev != null && prev.useCount > 0 {
      prev.next := res;
      res.useCount := res.useCount + 1;
    }
    ghost var live', vs' := live + [res], vs + [v];
    forall k | 0 <= k < |live'| ensures Represents(live'[k], vs'[k], k == 0, Successor(live', k)) {
      if k < |live| { assert old(Represents(live[k], vs[k], k == 0, Successor(live, k))); }
    }
  }

  /** The end of a buffer's destructor: its `next` is released. */
  method ReleaseNext(b: Buffer, ghost live: seq<Buffer>, ghost vs: seq<Buf>) returns (dying: Buffer?)
    requires Linked(live, vs) && live != [] && live[0] == b
    modifies live
    ensures Linked(live[1..], vs[1..]) && b.useCount == old(b.useCount)
    ensures dying == if |vs| > 1 && vs[1].handles == 0 then live[1] else null
  {
    assert Represents(b, vs[0], true, Successor(live, 0));
    dying := b.next;
    if dying != null {
      assert Represents(live[1], vs[1], false, Successor(live, 1));
      dying.useCount := dying.useCount - 1;
      if dying.useCount > 0 {
        dying := null;
      }
    }
    ghost var live', vs' := live[1..], vs[1..];
    forall k | 0 <= k < |live'| ensures Represents(live'[k], vs'[k], k == 0, Successor(live', k)) {
      assert old(Represents(live[k + 1], vs[k + 1], false, Successor(live, k + 1)));
    }
  }

  class Queue {
    const entries: nat
    var i0: nat
    var i1: nat
    var hasSpace: bool
    var failedAlloc: bool
    /** Weak: it may point to a destroyed buffer. */
    var prev: Buffer?
    /** How often `freeCallback` has been called. */
    var wakeups: nat
    /** The undestroyed buffers, oldest first, and the abstract state of the queue. */
    ghost var live: seq<Buffer>
    ghost var ring: State

    ghost predicate Fields()
      reads this
    {
      Mirrors(ring)
    }

    ghost predicate Mirrors(s: State)
      reads this
    {
      && s.entries == entries && s.i0 == i0 && s.i1 == i1 && s.hasSpace == hasSpace
      && s.failedAlloc == failedAlloc && s.wakeups == wakeups
    }

    ghost predicate Valid()
      reads this, live, prev
    {
      && Fields() && Linked(live, ring.live)
      && Remembered(prev, live)
    }

    constructor (entries: nat)
      requires entries >= 3
      ensures Valid() && ring == Init(entries)
    {
      this.entries, i0, i1 := entries, entries, entries;
      hasSpace, failedAlloc, prev, wakeups := true, false, null, 0;
      live, ring := [], Init(entries);
    }

    method AvailableWords() returns (n: nat)
      requires Valid() && ring.i0 <= ring.entries
      ensures n == Available(ring)
    {
      if i0 < i1 {
        n := OddAvailable(i1 - i0);
      } else if i0 == i1 {
        n := if hasSpace then OddAvailable(entries) else 0;
      } else {
        n := OddAvailable(entries - i0);
        if n == 0 {
          n := n + OddAvailable(i1);
        } else {
          n := n + EvenAvailable(i1);
        }
      }
    }

    method TakePart(j0: nat, n: nat, maxLen: nat) returns (s: Span, rest: nat)
      requires Fields()
      modifies `i0, `hasSpace, `ring
      ensures Fields()
      ensures Part(s, ring, rest) == AllocPart(old(ring), j0, n, maxLen)
    {
      var odd := n % 2;
      var len := n;
      if len > maxLen {
        len := maxLen;
      }
      if len == 0 {
        return NO_SPAN, n;
      }
      if len % 2 != odd {
        len := len - 1;
      }
      if len < 2 {
        return NO_SPAN, n;
      }
      i0 := j0 + len;
      hasSpace := i0 != i1;
      s, rest := Span(j0, len), n - len;
      ring := AllocPart(ring, j0, n, maxLen).state;
    }

    method Fail()
      requires Fields()
      modifies `failedAlloc, `ring
      ensures Fields() && ring == FailedAlloc(old(ring))
    {
      failedAlloc := true;
      ring := FailedAlloc(ring);
    }

    /** The part of `alloc` that moves the cursors; an empty first span means failure. */
    method Carve(n: nat) returns (s1: Span, s2: Span)
      requires Fields() && ring.i0 <= ring.entries
      modifies `i0, `hasSpace, `failedAlloc, `ring
      ensures Fields() && ring.live == old(ring.live)
      ensures Alloc(old(ring), n) == if s1.len == 0 then ring else Append(ring, s1, s2)
    {
      s1, s2 := NO_SPAN, NO_SPAN;
      var rest := n;
      if i0 < i1 {
        s1, rest := TakePart(i0, n, i1 - i0);
      } else {
        if !hasSpace {
          Fail();
          return;
        }
        s1, rest := TakePart(i0, n, entries - i0);
        if s1.len == 0 {
          s1, rest := TakePart(0, rest, i1);
        } else {
          s2, rest := TakePart(0, rest, i1);
        }
      }
      if s1.len == 0 {
        Fail();
      }
    }

    /** `alloc`, also from within the destructor of the oldest buffer when that has a successor. */
    method Request(n: nat) returns (res: Buffer?)
      requires Valid() && NewestIsAlive(ring.live) && ring.i0 <= ring.entries && Odd(n)
      modifies this, live
      ensures Valid() && ring == Alloc(old(ring), n)
      ensures Dying(ring) <==> Dying(old(ring))
      ensures if res == null then live == old(live)
              else fresh(res) && live == old(live) + [res]
    {
      var s1, s2 := Carve(n);
      if s1.len == 0 {
        return null;
      }
      res := Enlist(s1, s2);
    }

    /** The part of `alloc` that makes the buffer. */
    method Enlist(s1: Span, s2: Span) returns (res: Buffer)
      requires Valid() && NewestIsAlive(ring.live)
      modifies `prev, `live, `ring, live
      ensures Valid() && ring == Append(old(ring), s1, s2)
      ensures fresh(res) && live == old(live) + [res]
    {
      ghost var next := Append(ring, s1, s2);
      res := LinkNew(s1, s2, i0, prev, next.live[|live|], live, ring.live);
      prev := res;
      Become(next, live + [res]);
    }

    method Copy(b: Buffer, ghost k: nat)
      requires Valid() && k < |live| && live[k] == b && Held(ring, k)
      modifies `ring, `live, b`useCount
      ensures Valid() && live == old(live) && ring == SetHandles(old(ring), k, old(ring).live[k].handles + 1)
    {
      Adjust(b, k, 1);
    }

    /** The abstract state follows once the objects are as it describes. */
    ghost method Become(next: State, nowLive: seq<Buffer>)
      requires Mirrors(next) && Linked(nowLive, next.live) && Remembered(prev, nowLive)
      modifies `ring, `live
      ensures Valid() && ring == next && live == nowLive
    {
      ring, live := next, nowLive;
    }

    /** The number of outside handles changes by delta. */
    method Adjust(b: Buffer, ghost k: nat, delta: int)
      requires Valid() && k < |live| && live[k] == b && ring.live[k].handles + delta >= 0
      modifies `ring, `live, b`useCount
      ensures Valid() && ring == SetHandles(old(ring), k, old(ring).live[k].handles + delta)
      ensures live == old(live)
      ensures b.useCount == 0 <==> k == 0 && ring.live[0].handles == 0
    {
      ghost var next := SetHandles(ring, k, ring.live[k].handles + delta);
      AddToCount(b, delta, k, live, ring.live);
      Become(next, live);
    }

    method FreeUpTo(destructCursor: nat)
      requires Fields()
      modifies `i1, `hasSpace, `failedAlloc, `wakeups, `ring
      ensures Fields() && ring == Free(old(ring), destructCursor)
    {
      i1 := destructCursor;
      if i0 == i1 {
        hasSpace := true;
      }
      if failedAlloc {
        failedAlloc := false;
        wakeups := wakeups + 1;
      }
      ring := Free(ring, destructCursor);
    }

    /** The body of `~Buffer`: the space is given back unless someone else holds the successor. */
    method FreeUnlessHeld(b: Buffer)
      requires Valid() && live != [] && live[0] == b
      modifies `i1, `hasSpace, `failedAlloc, `wakeups, `ring
      ensures Valid()
      ensures ring == Freed(old(ring))
    {
      assert Represents(b, ring.live[0], true, Successor(live, 0));
      assert b.next != null ==> Represents(b.next, ring.live[1], false, Successor(live, 1));
      if b.next == null || b.next.useCount <= 1 {
        FreeUpTo(b.destructCursor);
      }
    }

    /** The destructor of the oldest buffer, up to and including the release of its `next`; returns
        the successor if that was its last reference. */
    method Destruct(b: Buffer) returns (dying: Buffer?)
      requires Valid() && Dying(ring) && live[0] == b
      modifies this, live
      ensures Valid() && ring == DestroyOldest(old(ring)) && live == old(live)[1..]
      ensures if dying == null then !Dying(ring) else Dying(ring) && live[0] == dying
      ensures b.useCount == 0 && b !in live
    {
      FirstIsApart(live, ring.live);
      FreeUnlessHeld(b);
      dying := Finish(b, false, ring);
    }

    /** b was the only buffer of the state `was` and has been taken out of the chain. */
    ghost predicate TakenOut(b: Buffer, was: State)
      reads this, b
    {
      b !in live && !Dying(ring) && b.useCount == 0 && |was.live| == 1 && Linked([b], was.live)
    }

    /** The body of `~Buffer` with a `freeCallback` that requests n words on the same thread.  The
        newest buffer, when it is the one that is being destroyed, can no longer be locked, so the new
        buffer is linked from nowhere. */
    method FreeAsking(b: Buffer, n: nat) returns (res: Buffer?)
      requires Valid() && Dying(ring) && live[0] == b && ring.i0 <= ring.entries && Odd(n)
      modifies this, live
      ensures Valid() && (res == null || fresh(res))
      ensures if |old(live)| == 1 then TakenOut(b, old(ring)) else Dying(ring) && live[0] == b
      ensures Asked(old(ring), n) == if |old(live)| == 1 then ring else Retire(ring)
      ensures old(live)[1..] + MaybeOne(res) == if |old(live)| == 1 then live else live[1..]
    {
      AskedInOrder(ring, n);
      res := null;
      var woken := FreeNoting(b);
      if woken {
        res := Request(n);
      }
      TailOfJoin(old(live), MaybeOne(res));
    }

    /** The same up to where `freeCallback` is called, if it is. */
    method FreeNoting(b: Buffer) returns (woken: bool)
      requires Valid() && Dying(ring) && live[0] == b
      modifies `i1, `hasSpace, `failedAlloc, `wakeups, `ring, `live
      ensures Valid() && woken == (Freed(old(ring)).wakeups > old(ring).wakeups)
      ensures if |old(live)| == 1 then ring == DestroyOldest(old(ring)) && live == [] && TakenOut(b, old(ring))
              else ring == Freed(old(ring)) && live == old(live) && Dying(ring)
    {
      assert Represents(b, ring.live[0], true, Successor(live, 0));
      var noted := failedAlloc;
      FreeUnlessHeld(b);
      woken := noted && !failedAlloc;
      if |live| == 1 {
        Become(Retire(ring), []);
      }
    }

    /** The same destructor, `next` released as well: the outcome is that of the destruction followed
        by the request. */
    method DestructAsking(b: Buffer, n: nat) returns (dying: Buffer?, res: Buffer?)
      requires Valid() && Dying(ring) && live[0] == b && ring.i0 <= ring.entries && Odd(n)
      modifies this, live
      ensures Valid() && ring == Asked(old(ring), n)
      ensures live == old(live)[1..] + MaybeOne(res) && (res == null || fresh(res))
      ensures if dying == null then !Dying(ring) else Dying(ring) && live[0] == dying
    {
      ghost var was, alone := ring, |live| == 1;
      res := FreeAsking(b, n);
      dying := Finish(b, alone, was);
    }

    /** The end of b's destructor; if alone, b no longer is in the chain. */
    method Finish(b: Buffer, ghost alone: bool, ghost was: State) returns (dying: Buffer?)
      requires Valid() && if alone then TakenOut(b, was) else Dying(ring) && live[0] == b
      modifies `ring, `live, live, b
      ensures Valid()
      ensures if alone then ring == old(ring) && live == old(live)
              else ring == Retire(old(ring)) && live == old(live)[1..]
      ensures if dying == null then !Dying(ring) else Dying(ring) && live[0] == dying
      ensures b.useCount == 0
    {
      dying := ReleaseNext(b, if alone then [b] else live, if alone then was.live else ring.live);
      if !alone {
        Become(Retire(ring), live[1..]);
      }
    }

    method RunCascade(b: Buffer?)
      requires Valid() && if b == null then !Dying(ring) else Dying(ring) && live[0] == b
      modifies this, live
      ensures Valid() && ring == Cascade(old(ring)) && !Dying(ring)
      ensures Left(old(live), live)
      decreases |live|
    {
      if b != null {
        var dying := Destruct(b);
        ghost var rest := live;
        RunCascade(dying);
        assert b.useCount == 0;
        SuffixOf(old(live), rest, live);
      } else {
        assert live[0..] == live;
      }
    }

    method Uncount(b: Buffer, ghost k: nat) returns (dying: Buffer?)
      requires Valid() && k < |live| && live[k] == b && Held(ring, k) && !Dying(ring)
      modifies `ring, `live, b`useCount
      ensures Valid() && live == old(live) && ring == SetHandles(old(ring), k, old(ring).live[k].handles - 1)
      ensures if dying == null then !Dying(ring) else Dying(ring) && live[0] == dying
    {
      Adjust(b, k, -1);
      dying := if b.useCount == 0 then b else null;
    }

    /** One handle of b goes away; if it was the last reference, b's destructor runs, which releases
        the successor, and so on. */
    method DropOne(b: Buffer, ghost k: nat)
      requires Valid() && k < |live| && live[k] == b && Held(ring, k) && !Dying(ring)
      modifies this, live
      ensures Valid() && ring == DropHandle(old(ring), k) && !Dying(ring)
      ensures Left(old(live), live)
    {
      var dying := Uncount(b, k);
      RunCascade(dying);
    }
  }
}
