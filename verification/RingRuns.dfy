/** Runs of the queue's objects: for any list of events the objects go through the states of the
    abstract run, so what RingTheorems says of the values holds of the live buffers. */
module RingRuns {
  import opened CyclicQueue
  import opened RingModel
  import opened RingTheorems

  /** These are the undestroyed buffers of this queue. */
  ghost predicate Runs(q: Queue, held: seq<Buffer>)
    reads q, held, q.prev
  {
    q.live == held && q.Valid()
  }

  function Inside(k: nat): nat {
    if k == 0 then 0 else 1
  }

  /** What the reference counts tell. */
  lemma CountTells(q: Queue, held: seq<Buffer>, k: nat)
    requires Runs(q, held) && k < |held|
    ensures |q.ring.live| == |held| && held[k].useCount == q.ring.live[k].handles + Inside(k)
    ensures held[k].useCount > Inside(k) <==> Held(q.ring, k)
    ensures held[0].useCount == 0 <==> Dying(q.ring)
  {
    assert Represents(held[k], q.ring.live[k], k == 0, Successor(held, k));
    assert Represents(held[0], q.ring.live[0], true, Successor(held, 0));
  }

  /** Whether the oldest buffer has lost its last reference. */
  method OldestIsDying(q: Queue, held: seq<Buffer>) returns (yes: bool)
    requires Runs(q, held)
    ensures yes == Dying(q.ring) && |q.ring.live| == |held|
  {
    yes := false;
    if held != [] {
      CountTells(q, held, 0);
      yes := held[0].useCount == 0;
    }
  }

  method DoRequest(q: Queue, held: seq<Buffer>, n: nat) returns (now: seq<Buffer>)
    requires Runs(q, held) && q.ring.i0 <= q.ring.entries
    modifies q, held
    ensures Runs(q, now) && q.ring == Step(old(q.ring), Request(n))
    ensures forall b :: b in now ==> b in held || fresh(b)
  {
    now := held;
    var dying := OldestIsDying(q, held);
    if Odd(n) && !(|held| == 1 && dying) {
      var b := q.Request(n);
      if b != null {
        now := held + [b];
      }
    }
  }

  method Count(q: Queue, held: seq<Buffer>, k: nat, delta: int, ghost h: nat)
    requires Runs(q, held) && k < |held| && h == q.ring.live[k].handles + delta
    modifies q, held
    ensures Runs(q, held) && q.ring == SetHandles(old(q.ring), k, h)
  {
    q.Adjust(held[k], k, delta);
  }

  method DoCopy(q: Queue, held: seq<Buffer>, k: nat)
    requires Runs(q, held) && q.ring.i0 <= q.ring.entries
    modifies q, held
    ensures Runs(q, held) && q.ring == Step(old(q.ring), Copy(k))
  {
    var yes := MayGive(q, held, k);
    if yes {
      Count(q, held, k, 1, q.ring.live[k].handles + 1);
    }
  }

  method DoRelease(q: Queue, held: seq<Buffer>, k: nat)
    requires Runs(q, held) && q.ring.i0 <= q.ring.entries
    modifies q, held
    ensures Runs(q, held) && q.ring == Step(old(q.ring), Release(k))
  {
    var yes := MayGive(q, held, k);
    if yes {
      Count(q, held, k, -1, q.ring.live[k].handles - 1);
    }
  }

  /** Whether anyone outside the queue holds buffer k. */
  method MayGive(q: Queue, held: seq<Buffer>, k: nat) returns (yes: bool)
    requires Runs(q, held)
    ensures yes == Held(q.ring, k) && |q.ring.live| == |held|
  {
    yes := false;
    if k < |held| {
      CountTells(q, held, k);
      yes := held[k].useCount > Inside(k);
    }
  }

  method DoDrop(q: Queue, held: seq<Buffer>, k: nat) returns (now: seq<Buffer>)
    requires Runs(q, held) && q.ring.i0 <= q.ring.entries
    modifies q, held
    ensures Runs(q, now) && q.ring == Step(old(q.ring), Drop(k))
    ensures forall b :: b in now ==> b in held
  {
    now := held;
    var yes := MayGive(q, held, k);
    if yes {
      now := DropOne(q, held, k);
    }
  }

  method DropOne(q: Queue, held: seq<Buffer>, k: nat) returns (now: seq<Buffer>)
    requires Runs(q, held) && k < |held| && Held(q.ring, k)
    modifies q, held
    ensures Runs(q, now) && q.ring == DropHandle(old(q.ring), k)
    ensures forall b :: b in now ==> b in held
  {
    Count(q, held, k, -1, q.ring.live[k].handles - 1);
    now := DoCascade(q, held);
  }

  method DoCascade(q: Queue, held: seq<Buffer>) returns (now: seq<Buffer>)
    requires Runs(q, held)
    modifies q, held
    ensures Runs(q, now) && q.ring == Cascade(old(q.ring))
    ensures forall b :: b in now ==> b in held
  {
    Settle(q, held);
    now := Undestroyed(held, q.live);
  }

  method Settle(q: Queue, held: seq<Buffer>)
    requires Runs(q, held)
    modifies q, held
    ensures q.Valid() && q.ring == Cascade(old(q.ring))
    ensures Left(held, q.live)
    ensures q.live != [] ==> q.live[0].useCount > 0
  {
    var dying := OldestIsDying(q, held);
    q.RunCascade(if dying then held[0] else null);
    FirstIsAlive(q);
  }

  lemma FirstIsAlive(q: Queue)
    requires q.Valid() && !Dying(q.ring)
    ensures q.live != [] ==> q.live[0].useCount > 0
  {
    if q.live != [] {
      CountTells(q, q.live, 0);
    }
  }

  /** The destroyed buffers are those whose count is 0. */
  method Undestroyed(held: seq<Buffer>, ghost rest: seq<Buffer>) returns (now: seq<Buffer>)
    requires Left(held, rest)
    requires rest != [] ==> rest[0].useCount > 0
    ensures now == rest && forall b :: b in now ==> b in held
  {
    ghost var first := |held| - |rest|;
    assert rest != [] ==> held[first] == rest[0];
    var i := 0;
    while i < |held| && held[i].useCount == 0
      invariant i <= first
    {
      i := i + 1;
    }
    now := held[i..];
  }

  method DoDestroy(q: Queue, held: seq<Buffer>) returns (now: seq<Buffer>)
    requires Runs(q, held) && q.ring.i0 <= q.ring.entries
    modifies q, held
    ensures Runs(q, now) && q.ring == Step(old(q.ring), Destroy)
    ensures forall b :: b in now ==> b in held
  {
    now := held;
    var ready := OldestIsDying(q, held);
    if ready {
      var dying := q.Destruct(held[0]);
      now := held[1..];
    }
  }

  method DoDestroyAsking(q: Queue, held: seq<Buffer>, n: nat) returns (now: seq<Buffer>)
    requires Runs(q, held) && q.ring.i0 <= q.ring.entries
    modifies q, held
    ensures Runs(q, now) && q.ring == Step(old(q.ring), DestroyAsking(n))
    ensures forall b :: b in now ==> b in held || fresh(b)
  {
    now := held;
    var ready := OldestIsDying(q, held);
    if ready && Odd(n) {
      var dying, b := q.DestructAsking(held[0], n);
      now := held[1..] + (if b == null then [] else [b]);
    }
  }

  method Do(q: Queue, held: seq<Buffer>, e: Event) returns (now: seq<Buffer>)
    requires Runs(q, held) && q.ring.i0 <= q.ring.entries
    modifies q, held
    ensures Runs(q, now) && q.ring == Step(old(q.ring), e)
    ensures forall b :: b in now ==> b in held || fresh(b)
  {
    now := held;
    match e
    case Request(n) => now := DoRequest(q, held, n);
    case Copy(k) => DoCopy(q, held, k);
    case Drop(k) => now := DoDrop(q, held, k);
    case Release(k) => DoRelease(q, held, k);
    case Destroy => now := DoDestroy(q, held);
    case DestroyAsking(n) => now := DoDestroyAsking(q, held, n);
  }

  /** A cell of the ring belongs to the object. */
  predicate Owns(b: Buffer, cell: nat) {
    || b.first.off <= cell < b.first.off + b.first.len
    || b.second.off <= cell < b.second.off + b.second.len
  }

  /** The buffers' spans have the parities of the device layout and lie in the ring, and no cell belongs
      to two of them. */
  ghost predicate Safe(entries: nat, held: seq<Buffer>) {
    && (forall k :: 0 <= k < |held| ==>
          && held[k].first.len % 2 == 1 && held[k].first.len >= 3 && held[k].second.len % 2 == 0
          && held[k].second.len <= held[k].first.off)
    && (forall k, c: nat :: 0 <= k < |held| && Owns(held[k], c) ==> c < entries)
    && (forall j, k, c: nat :: 0 <= j < k < |held| ==> !(Owns(held[j], c) && Owns(held[k], c)))
  }

  lemma RunAppend(s: State, events: seq<Event>, e: Event)
    requires Inv(s)
    ensures var t := Run(s, events); t.i0 <= t.entries && Run(s, events + [e]) == Step(t, e)
    decreases |events|
  {
    if events == [] {
      RunStep(s, e, []);
    } else {
      StepKeeps(s, events[0]);
      assert (events + [e])[1..] == events[1..] + [e];
      RunAppend(Step(s, events[0]), events[1..], e);
    }
  }

  /** `made` are the buffers the run has made, destroyed or not. */
  method DoNext(q: Queue, held: seq<Buffer>, e: Event, ghost s: State, ghost made: set<Buffer>)
    returns (now: seq<Buffer>, ghost all: set<Buffer>)
    requires Runs(q, held) && q.ring == s && s.i0 <= s.entries && forall b :: b in held ==> b in made
    modifies q, made
    ensures Runs(q, now) && q.ring == Step(s, e)
    ensures fresh(all - made) && forall b :: b in now ==> b in all
  {
    now := Do(q, held, e);
    all := made + set b | b in now;
  }

  lemma SafeObjects(q: Queue, held: seq<Buffer>, entries: nat, events: seq<Event>)
    requires entries >= 3 && Runs(q, held) && q.ring == Run(Init(entries), events)
    ensures Safe(entries, held)
  {
    RingSafety(entries, events);
    var vs := q.ring.live;
    forall k | 0 <= k < |held|
      ensures held[k].first == vs[k].first && held[k].second == vs[k].second
      ensures forall c: nat :: Owns(held[k], c) <==> Covers(vs[k], c)
    {
      assert Represents(held[k], vs[k], k == 0, Successor(held, k));
    }
    assert forall k :: 0 <= k < |held| ==> Shaped(entries, vs[k]);
  }

  /** s is where the first i events lead. */
  ghost predicate Reached(s: State, entries: nat, events: seq<Event>, i: nat) {
    entries >= 3 && i <= |events| && s == Run(Init(entries), events[..i])
  }

  lemma ReachMore(s: State, entries: nat, events: seq<Event>, i: nat)
    requires Reached(s, entries, events, i) && i < |events|
    ensures s.i0 <= s.entries && Reached(Step(s, events[i]), entries, events, i + 1)
  {
    assert events[..i + 1] == events[..i] + [events[i]];
    RunAppend(Init(entries), events[..i], events[i]);
  }

  lemma ReachStart(q: Queue, entries: nat, events: seq<Event>)
    requires entries >= 3 && q.ring == Init(entries)
    ensures Reached(q.ring, entries, events, 0)
  {
  }

  lemma ReachEnd(s: State, entries: nat, events: seq<Event>)
    requires Reached(s, entries, events, |events|)
    ensures s == Run(Init(entries), events)
  {
    assert events[..|events|] == events;
  }

  method RunObjects(entries: nat, events: seq<Event>) returns (q: Queue, held: seq<Buffer>)
    requires entries >= 3
    ensures fresh(q) && Runs(q, held) && Reached(q.ring, entries, events, |events|)
  {
    q := new Queue(entries);
    held := [];
    ghost var made: set<Buffer> := {};
    ReachStart(q, entries, events);
    for i := 0 to |events|
      invariant fresh(q) && Runs(q, held) && Reached(q.ring, entries, events, i)
      invariant fresh(made) && forall b :: b in held ==> b in made
    {
      ReachMore(q.ring, entries, events, i);
      held, made := DoNext(q, held, events[i], q.ring, made);
    }
  }

  /** Any run of a new queue: its objects end in the state of the abstract run, and the undestroyed
      buffers are safe. */
  method RunQueue(entries: nat, events: seq<Event>) returns (q: Queue, held: seq<Buffer>)
    requires entries >= 3
    ensures fresh(q) && q.Valid() && q.live == held && q.ring == Run(Init(entries), events)
    ensures Safe(entries, held)
  {
    q, held := RunObjects(entries, events);
    ReachEnd(q.ring, entries, events);
    SafeObjects(q, held, entries, events);
  }
}
