/** Handing out the 2^32 nonces of a job in ranges that wrap around 2^32. */
module NonceTracker {
  import opened MachineWords
  import opened Options

  const SPACE := TWO32

  /** A range of n nonces from `offset` on, modulo 2^32. */
  datatype NonceRange<J> = NonceRange(job: J, offset: u32, n: u32)

  predicate Contains<J>(r: NonceRange<J>, nonce: u32) {
    (nonce - r.offset) % SPACE < r.n
  }

  /** The state of a tracker. */
  datatype Tracker<J> = Tracker(job: J, remaining: nat, offset: u32)

  function Start<J>(job: J, random: u32): Tracker<J> {
    Tracker(job, SPACE, random)
  }

  function GetJob<J>(t: Tracker<J>, n: nat): (Option<NonceRange<J>>, Tracker<J>) {
    var m := Min(n, t.remaining);
    if m == 0 then (None, t)
    else
      var m32 := m % SPACE;
      (Some(NonceRange(t.job, t.offset, m32)),
       Tracker(t.job, t.remaining - m, (t.offset + m32) % SPACE))
  }

  // ---------------------------------------------------------------- one request

  /** How many nonces of the cycle that began at `start` have been handed out. */
  predicate OnCycle<J>(t: Tracker<J>, start: u32) {
    t.remaining <= SPACE && t.offset == (start + SPACE - t.remaining) % SPACE
  }

  /** The nonces from `start` on that have been handed out, in the cycle's order. */
  predicate Used<J>(t: Tracker<J>, start: u32, nonce: u32) {
    (nonce - start) % SPACE < SPACE - t.remaining
  }

  lemma RequestAdvances<J>(t: Tracker<J>, start: u32, n: nat)
    requires OnCycle(t, start)
    ensures var (r, u) := GetJob(t, n);
            && OnCycle(u, start) && u.remaining == t.remaining - Min(n, t.remaining)
            && (r == None <==> n == 0 || t.remaining == 0)
  {
    var m := Min(n, t.remaining);
    Wrap(start + SPACE - t.remaining, m);
  }

  lemma Wrap(a: nat, m: nat)
    ensures (a % SPACE + m % SPACE) % SPACE == (a + m) % SPACE
  {
  }

  /** Distance from a point further along the cycle. */
  lemma Shift(nonce: u32, start: u32, c: nat, offset: u32, d: u32)
    requires c <= SPACE && offset == (start + c) % SPACE && d == (nonce - start) % SPACE
    ensures (nonce - offset) % SPACE == if d >= c then d - c else d - c + SPACE
  {
  }

  lemma RangeIsExactAt<J>(t: Tracker<J>, start: u32, n: nat, nonce: u32)
    requires OnCycle(t, start) && 0 < Min(n, t.remaining) < SPACE
    ensures var (r, u) := GetJob(t, n);
            Contains(r.value, nonce) <==> Used(u, start, nonce) && !Used(t, start, nonce)
  {
    var c, m := SPACE - t.remaining, Min(n, t.remaining);
    Answer(t, n, m);
    StretchAt(t.offset, start, nonce, c, m);
  }

  lemma Answer<J>(t: Tracker<J>, n: nat, m: nat)
    requires m == Min(n, t.remaining) && 0 < m < SPACE
    ensures var (r, u) := GetJob(t, n);
            r == Some(NonceRange(t.job, t.offset, m)) && u.remaining == t.remaining - m
  {
  }

  lemma StretchAt(offset: u32, start: u32, nonce: u32, c: nat, m: nat)
    requires c + m <= SPACE && m < SPACE && offset == (start + c) % SPACE
    ensures (nonce - offset) % SPACE < m <==> c <= (nonce - start) % SPACE < c + m
  {
    var d := (nonce - start) % SPACE;
    Shift(nonce, start, c, offset, d);
    NextStretch(d, c, m);
  }

  lemma NextStretch(d: u32, c: nat, m: nat)
    requires c + m <= SPACE && m < SPACE
    ensures (if d >= c then d - c else d - c + SPACE) < m <==> c <= d < c + m
  {
  }

  lemma WholeSpaceIsLost<J>(t: Tracker<J>, start: u32, n: nat)
    requires OnCycle(t, start) && Min(n, t.remaining) == SPACE
    ensures var (r, u) := GetJob(t, n);
            && r.value.n == 0 && u.remaining == 0
            && Used(u, start, start) && !Used(t, start, start) && !Contains(r.value, start)
  {
  }

  /** The range is exactly what the request marks as used. */
  ghost predicate Exact<J>(t: Tracker<J>, start: u32, r: NonceRange<J>, u: Tracker<J>) {
    forall nonce: u32 :: Contains(r, nonce) <==> Used(u, start, nonce) && !Used(t, start, nonce)
  }

  /** A request hands out exactly the nonces it marks as used, except when it asks for the whole
      space at once: then the 32-bit length is 0 and nothing is handed out. */
  lemma RequestIsExact<J>(t: Tracker<J>, start: u32, n: nat)
    requires OnCycle(t, start) && n > 0 && t.remaining > 0
    ensures var (r, u) := GetJob(t, n);
            Exact(t, start, r.value, u) <==> n < SPACE || t.remaining < SPACE
  {
    var (r, u) := GetJob(t, n);
    if n < SPACE || t.remaining < SPACE {
      forall nonce: u32
        ensures Contains(r.value, nonce) <==> Used(u, start, nonce) && !Used(t, start, nonce)
      {
        RangeIsExactAt(t, start, n, nonce);
      }
    } else {
      WholeSpaceIsLost(t, start, n);
    }
  }

  /** The first request of a new tracker, for the whole space: the answer contains no nonce and the
      tracker is used up. */
  lemma WholeSpaceAtOnce<J>(job: J, random: u32)
    ensures GetJob(Start(job, random), SPACE) == (Some(NonceRange(job, random, 0)), Tracker(job, 0, random))
    ensures forall nonce: u32 :: !Contains(NonceRange(job, random, 0), nonce)
    ensures !Exact(Start(job, random), random, NonceRange(job, random, 0), Tracker(job, 0, random))
  {
    assert Used(Tracker(job, 0, random), random, random) && !Used(Start(job, random), random, random);
  }

  // ---------------------------------------------------------------- all requests

  /** The ranges a tracker answers a list of requests with, and the tracker afterwards. */
  function Serve<J>(t: Tracker<J>, requests: seq<nat>): (seq<NonceRange<J>>, Tracker<J>)
    decreases |requests|
  {
    if requests == [] then ([], t)
    else
      var (r, u) := GetJob(t, requests[0]);
      var (rs, v) := Serve(u, requests[1..]);
      (if r == None then rs else [r.value] + rs, v)
  }

  /** How many of the ranges contain the nonce. */
  function Hits<J>(rs: seq<NonceRange<J>>, nonce: u32): nat {
    if rs == [] then 0 else (if Contains(rs[0], nonce) then 1 else 0) + Hits(rs[1..], nonce)
  }

  lemma {:induction false} HitsSoFar<J>(t: Tracker<J>, start: u32, requests: seq<nat>, nonce: u32)
    requires OnCycle(t, start) && forall i :: 0 <= i < |requests| ==> requests[i] < SPACE
    ensures var (rs, u) := Serve(t, requests);
            && OnCycle(u, start) && u.remaining <= t.remaining
            && Hits(rs, nonce) == (if Used(u, start, nonce) then 1 else 0)
                                - (if Used(t, start, nonce) then 1 else 0)
    decreases |requests|
  {
    if requests != [] {
      var (r, u) := GetJob(t, requests[0]);
      RequestAdvances(t, start, requests[0]);
      HitsSoFar(u, start, requests[1..], nonce);
      var (rs, v) := Serve(u, requests[1..]);
      if r.Some? {
        RangeIsExactAt(t, start, requests[0], nonce);
        assert ([r.value] + rs)[1..] == rs;
      }
    }
  }

  /** From any starting offset, for any requests below 2^32: no nonce is in two of the ranges, the
      nonces covered are a stretch of the cycle of the length handed out, and an exhausted tracker
      has covered every nonce exactly once. */
  lemma NoncePartition<J>(job: J, random: u32, requests: seq<nat>, nonce: u32)
    requires forall i :: 0 <= i < |requests| ==> requests[i] < SPACE
    ensures var (rs, u) := Serve(Start(job, random), requests);
            && Hits(rs, nonce) == (if (nonce - random) % SPACE < SPACE - u.remaining then 1 else 0)
            && (u.remaining == 0 ==> Hits(rs, nonce) == 1)
  {
    HitsSoFar(Start(job, random), random, requests, nonce);
  }

  // ---------------------------------------------------------------- the objects

  class JobNonceTracker<J> {
    const job: J
    var remaining: nat
    var offset: u32

    constructor (job: J, random: u32)
      ensures State() == Start(job, random)
    {
      this.job, remaining, offset := job, SPACE, random;
    }

    ghost function State(): Tracker<J>
      reads this
    {
      Tracker(job, remaining, offset)
    }

    predicate Exhausted()
      reads this
    {
      remaining == 0
    }

    method Get(n: nat) returns (r: Option<NonceRange<J>>)
      modifies this
      ensures (r, State()) == GetJob(old(State()), n)
    {
      var m := Min(n, remaining);
      if m == 0 {
        return None;
      }
      remaining := remaining - m;
      var tmpOffset := offset;
      offset := (offset + m % SPACE) % SPACE;
      r := Some(NonceRange(job, tmpOffset, m % SPACE));
    }
  }

  class GpuHasher<J> {
    var tracker: JobNonceTracker?<J>

    constructor ()
      ensures tracker == null
    {
      tracker := null;
    }

    /** `get_worker_range`; `job` is what the job generator has to offer and `random` the starting
        offset a new tracker draws.  A tracker that stays has nonces left and is the one the range
        came from. */
    method GetWorkerRange(n: nat, job: Option<J>, random: u32) returns (r: Option<NonceRange<J>>)
      requires tracker != null ==> !tracker.Exhausted()
      modifies this, tracker
      ensures tracker != null ==> !tracker.Exhausted() && r.Some?
      ensures old(tracker) == null && job == None ==> r == None && tracker == null
      ensures old(tracker) == null && job.Some? ==>
                var (s, u) := GetJob(Start(job.value, random), n);
                && r == s && (tracker != null <==> s.Some? && u.remaining > 0)
                && (tracker != null ==> fresh(tracker) && tracker.State() == u)
      ensures old(tracker) != null ==>
                var (s, u) := GetJob(old(tracker.State()), n);
                && r == s && (tracker != null <==> s.Some? && u.remaining > 0)
                && (tracker != null ==> tracker == old(tracker) && tracker.State() == u)
    {
      if tracker == null {
        if job == None {
          return None;
        }
        tracker := new JobNonceTracker(job.value, random);
      }
      r := tracker.Get(n);
      if r == None || tracker.Exhausted() {
        tracker := null;
      }
    }
  }
}
