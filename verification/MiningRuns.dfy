/** What `mine_job` looks at over the batches of any run of pushes and pops, absent a winner. */
module MiningRuns {
  import opened JobBatches
  import opened MachineWords
  import opened Traversal

  predicate Minable<C>(bs: seq<Batch<C>>) {
    forall i :: 0 <= i < |bs| ==> WindowFits(bs[i]) && |Candidates(bs[i].job)| < TWO64
  }

  /** The candidates `mine_job` looks at for a batch, absent a winner. */
  function Visited<C>(b: Batch<C>): seq<C>
    requires WindowFits(b) && |Candidates(b.job)| < TWO64
  {
    VisitStaysInside(|b.job.first|, |b.job.second|, b.offset, b.len);
    Select(Candidates(b.job), Visit(|b.job.first|, |b.job.second|, b.offset, b.len))
  }

  function VisitedAll<C>(bs: seq<Batch<C>>): seq<C>
    requires Minable(bs)
  {
    if bs == [] then [] else VisitedAll(bs[..|bs| - 1]) + Visited(bs[|bs| - 1])
  }

  /** Batches that end in their job's first span, or start at its end, are mined exactly; in
      particular all batches are when no job has a second span. */
  lemma {:induction false} MinedAsPopped<C>(bs: seq<Batch<C>>)
    requires Minable(bs)
    requires forall i :: 0 <= i < |bs| ==>
               bs[i].offset + bs[i].len <= |bs[i].job.first| || bs[i].offset == |bs[i].job.first|
    ensures VisitedAll(bs) == Windows(bs)
  {
    if bs != [] {
      var b := bs[|bs| - 1];
      MinedAsPopped(bs[..|bs| - 1]);
      WindowVisited(b);
    }
  }

  lemma WindowVisited<C>(b: Batch<C>)
    requires WindowFits(b) && |Candidates(b.job)| < TWO64
    requires b.offset + b.len <= |b.job.first| || b.offset == |b.job.first|
    ensures Visited(b) == Window(b)
  {
    var end := b.offset + b.len;
    VisitIsWindowIff(|b.job.first|, |b.job.second|, b.offset, b.len);
    assert Visit(|b.job.first|, |b.job.second|, b.offset, b.len) == Range(b.offset, end);
    SelectRange(Candidates(b.job), b.offset, end);
  }

  // ---------------------------------------------------------------- runs, by position

  /** A candidate's place: the serial number of its job and its position there. */
  type Place = (nat, nat)

  /** The batches of each job fit it, and its size has 64 bits. */
  ghost predicate LogFits<C>(log: seq<Walk<C>>) {
    forall k :: 0 <= k < |log| ==> WalkFits(log[k]) && |Candidates(log[k].job)| < TWO64
  }

  function Tag(k: nat, positions: seq<nat>): (r: seq<Place>)
    ensures |r| == |positions| && forall i :: 0 <= i < |r| ==> r[i] == (k, positions[i])
  {
    seq(|positions|, i requires 0 <= i < |positions| => (k, positions[i]))
  }

  /** The positions looked at in one job. */
  ghost function LookedIn<C>(w: Walk<C>): seq<nat>
    requires WalkFits(w) && |Candidates(w.job)| < TWO64
  {
    VisitAll(|w.job.first|, |w.job.second|, 0, w.lens)
  }

  /** The places looked at when the jobs have been cut like this. */
  ghost function Looked<C>(log: seq<Walk<C>>): seq<Place>
    requires LogFits(log)
  {
    if log == [] then []
    else Looked(log[..|log| - 1]) + Tag(|log| - 1, LookedIn(log[|log| - 1]))
  }

  /** The places handed out: each job's candidates once and in order, up to where it has been cut. */
  ghost function HandedOut<C>(log: seq<Walk<C>>): seq<Place> {
    if log == [] then []
    else HandedOut(log[..|log| - 1]) + Tag(|log| - 1, Range(0, Total(log[|log| - 1].lens)))
  }

  /** The job is walked without a gap or a repetition: what has been taken of it lies in its first
      span, or exactly one batch starts at or after the beginning of the second. */
  ghost predicate WalkedWell<C>(w: Walk<C>) {
    Total(w.lens) <= |w.job.first| || LateStarts(|w.job.first|, 0, w.lens) == 1
  }

  ghost predicate PlacesBelow(ps: seq<Place>, k: nat) {
    forall i :: 0 <= i < |ps| ==> ps[i].0 < k
  }

  ghost predicate PlacesAt(ps: seq<Place>, k: nat) {
    forall i :: 0 <= i < |ps| ==> ps[i].0 == k
  }

  lemma LengthsTell(a: seq<Place>, x: seq<Place>, b: seq<Place>, y: seq<Place>, k: nat)
    requires PlacesBelow(a, k) && PlacesAt(y, k) && |a| > |b|
    ensures a + x != b + y
  {
    if |a + x| == |b + y| {
      assert (a + x)[|b|] == a[|b|] && (b + y)[|b|] == y[0];
    }
  }

  lemma TagsSplit(a: seq<Place>, x: seq<Place>, b: seq<Place>, y: seq<Place>, k: nat)
    requires PlacesBelow(a, k) && PlacesBelow(b, k) && PlacesAt(x, k) && PlacesAt(y, k)
    ensures a + x == b + y <==> a == b && x == y
  {
    if |a| > |b| {
      LengthsTell(a, x, b, y, k);
    } else if |b| > |a| {
      LengthsTell(b, y, a, x, k);
    } else {
      assert a == (a + x)[..|a|] && b == (b + y)[..|b|];
      assert x == (a + x)[|a|..] && y == (b + y)[|b|..];
    }
  }

  lemma TagIsInjective(k: nat, p: seq<nat>, q: seq<nat>)
    ensures Tag(k, p) == Tag(k, q) <==> p == q
  {
    if Tag(k, p) == Tag(k, q) {
      assert forall i :: 0 <= i < |p| ==> p[i] == Tag(k, p)[i].1 == Tag(k, q)[i].1 == q[i];
    }
  }

  lemma {:induction false} PlacesAreBelow<C>(log: seq<Walk<C>>)
    requires LogFits(log)
    ensures PlacesBelow(Looked(log), |log|) && PlacesBelow(HandedOut(log), |log|)
    decreases |log|
  {
    if log != [] {
      PlacesAreBelow(log[..|log| - 1]);
    }
  }

  /** At any moment of any run, mining has looked at exactly the candidates handed out, each once and
      in order, if and only if every job has been walked well so far. */
  lemma {:induction false} RunIsMinedIff<C>(log: seq<Walk<C>>)
    requires LogFits(log)
    ensures Looked(log) == HandedOut(log) <==> forall k :: 0 <= k < |log| ==> WalkedWell(log[k])
    decreases |log|
  {
    if log != [] {
      var k := |log| - 1;
      var w, init := log[k], log[..k];
      RunIsMinedIff(init);
      PlacesAreBelow(init);
      ExactlyOnceIff(|w.job.first|, |w.job.second|, 0, w.lens);
      TagIsInjective(k, LookedIn(w), Range(0, Total(w.lens)));
      TagsSplit(Looked(init), Tag(k, LookedIn(w)), HandedOut(init), Tag(k, Range(0, Total(w.lens))), k);
      assert forall i :: 0 <= i < k ==> init[i] == log[i];
    }
  }

  // ---------------------------------------------------------------- runs, by candidate

  ghost predicate PlacesFit<C>(log: seq<Walk<C>>, ps: seq<Place>) {
    forall i :: 0 <= i < |ps| ==> ps[i].0 < |log| && ps[i].1 < |Candidates(log[ps[i].0].job)|
  }

  /** The candidates at these places. */
  ghost function At<C>(log: seq<Walk<C>>, ps: seq<Place>): seq<C>
    requires PlacesFit(log, ps)
  {
    seq(|ps|, i requires 0 <= i < |ps| => Candidates(log[ps[i].0].job)[ps[i].1])
  }

  lemma VisitedAppend<C>(bs: seq<Batch<C>>, b: Batch<C>)
    requires Minable(bs) && WindowFits(b) && |Candidates(b.job)| < TWO64
    ensures Minable(bs + [b]) && VisitedAll(bs + [b]) == VisitedAll(bs) + Visited(b)
  {
    assert (bs + [b])[..|bs|] == bs;
  }

  lemma {:induction false} VisitedJoin<C>(a: seq<Batch<C>>, b: seq<Batch<C>>)
    requires Minable(a) && Minable(b)
    ensures Minable(a + b) && VisitedAll(a + b) == VisitedAll(a) + VisitedAll(b)
    decreases |b|
  {
    if b == [] {
      assert a + b == a;
    } else {
      var init, last := b[..|b| - 1], b[|b| - 1];
      assert b == init + [last];
      VisitedJoin(a, init);
      JoinAppend(a, init, last);
    }
  }

  lemma JoinAppend<C>(a: seq<Batch<C>>, init: seq<Batch<C>>, last: Batch<C>)
    requires Minable(a) && Minable(init) && WindowFits(last) && |Candidates(last.job)| < TWO64
    requires Minable(a + init) && VisitedAll(a + init) == VisitedAll(a) + VisitedAll(init)
    ensures var b := init + [last];
            Minable(b) && Minable(a + b) && VisitedAll(a + b) == VisitedAll(a) + VisitedAll(b)
  {
    VisitedAppend(init, last);
    VisitedAppend(a + init, last);
    Associate(a, init, [last]);
    Associate(VisitedAll(a), VisitedAll(init), Visited(last));
  }

  /** Mining the batches one after the other with `mine_job`, when no candidate wins. */
  method MineBatches<C(==)>(bs: seq<Batch<C>>) returns (visited: seq<C>)
    requires Minable(bs)
    ensures visited == VisitedAll(bs)
  {
    visited := [];
    for i := 0 to |bs|
      invariant Minable(bs[..i]) && visited == VisitedAll(bs[..i])
    {
      var b := bs[i];
      var looked, _ := MineJob(b.job.first, b.job.second, b.offset, b.len, {});
      UpToEnd(Visited(b));
      VisitedAppend(bs[..i], b);
      assert bs[..i + 1] == bs[..i] + [b];
      visited := visited + looked;
    }
    assert bs[..|bs|] == bs;
  }

  lemma VisitedOne<C>(b: Batch<C>)
    requires WindowFits(b) && |Candidates(b.job)| < TWO64
    ensures Minable([b]) && VisitedAll([b]) == Visited(b)
  {
    VisitedAppend([], b);
    assert [] + [b] == [b];
  }

  /** Mining these batches looks at the candidates of c at these positions. */
  ghost predicate Looks<C>(c: seq<C>, bs: seq<Batch<C>>, positions: seq<nat>) {
    Minable(bs) && Below(positions, |c|) && VisitedAll(bs) == Select(c, positions)
  }

  lemma FirstLooks<C>(b: Batch<C>, rest: seq<Batch<C>>, v: seq<nat>)
    requires WindowFits(b) && |Candidates(b.job)| < TWO64 && Looks(Candidates(b.job), rest, v)
    ensures Looks(Candidates(b.job), [b] + rest, Visit(|b.job.first|, |b.job.second|, b.offset, b.len) + v)
  {
    VisitedOne(b);
    VisitedJoin([b], rest);
    VisitStaysInside(|b.job.first|, |b.job.second|, b.offset, b.len);
    SelectAppend(Candidates(b.job), Visit(|b.job.first|, |b.job.second|, b.offset, b.len), v);
  }

  /** The batches of one job look at its candidates at the positions of the walk. */
  lemma {:induction false} BatchesLook<C>(j: Job<C>, start: nat, lens: seq<nat>)
    requires |Candidates(j)| < TWO64 && Positive(lens) && start + Total(lens) <= |Candidates(j)|
    ensures Looks(Candidates(j), Batches(j, start, lens), VisitAll(|j.first|, |j.second|, start, lens))
    decreases |lens|
  {
    if lens != [] {
      BatchesLook(j, start + lens[0], lens[1..]);
      FirstLooks(Batch(j, start, lens[0]), Batches(j, start + lens[0], lens[1..]),
                 VisitAll(|j.first|, |j.second|, start + lens[0], lens[1..]));
    }
  }

  /** These batches hold this stretch of c. */
  ghost predicate Holds<C>(c: seq<C>, bs: seq<Batch<C>>, lo: nat, hi: nat) {
    Minable(bs) && lo <= hi <= |c| && Windows(bs) == c[lo..hi]
  }

  lemma MinableFirst<C>(b: Batch<C>, rest: seq<Batch<C>>)
    requires WindowFits(b) && |Candidates(b.job)| < TWO64 && Minable(rest)
    ensures Minable([b] + rest)
  {
  }

  lemma FirstHolds<C>(b: Batch<C>, rest: seq<Batch<C>>, at: nat, hi: nat)
    requires WindowFits(b) && |Candidates(b.job)| < TWO64 && at == b.offset + b.len
    requires Holds(Candidates(b.job), rest, at, hi)
    ensures Holds(Candidates(b.job), [b] + rest, b.offset, hi)
  {
    WindowsJoin([b], rest);
    WindowsOne(b);
    MinableFirst(b, rest);
    assert Window(b) == Candidates(b.job)[b.offset..at];
    CutSlice(Candidates(b.job), b.offset, at, hi);
  }

  lemma {:induction false} BatchesHold<C>(j: Job<C>, start: nat, lens: seq<nat>, hi: nat)
    requires |Candidates(j)| < TWO64 && Positive(lens) && start + Total(lens) == hi <= |Candidates(j)|
    ensures Holds(Candidates(j), Batches(j, start, lens), start, hi)
    decreases |lens|
  {
    if lens == [] {
      assert Candidates(j)[start..start] == [];
    } else {
      BatchesHold(j, start + lens[0], lens[1..], hi);
      FirstHolds(Batch(j, start, lens[0]), Batches(j, start + lens[0], lens[1..]), start + lens[0], hi);
    }
  }

  lemma AtAppend<C>(log: seq<Walk<C>>, w: Walk<C>, ps: seq<Place>, positions: seq<nat>)
    requires PlacesFit(log, ps) && Below(positions, |Candidates(w.job)|)
    ensures var all := ps + Tag(|log|, positions);
            && PlacesFit(log + [w], all)
            && At(log + [w], all) == At(log, ps) + Select(Candidates(w.job), positions)
  {
  }

  ghost predicate LooksAt<C>(log: seq<Walk<C>>, bs: seq<Batch<C>>, ps: seq<Place>) {
    Minable(bs) && PlacesFit(log, ps) && VisitedAll(bs) == At(log, ps)
  }

  ghost predicate HoldsAt<C>(log: seq<Walk<C>>, bs: seq<Batch<C>>, ps: seq<Place>) {
    Minable(bs) && PlacesFit(log, ps) && Windows(bs) == At(log, ps)
  }

  lemma OneMoreJobLooks<C>(log: seq<Walk<C>>, bs: seq<Batch<C>>, ps: seq<Place>,
                           w: Walk<C>, more: seq<Batch<C>>, v: seq<nat>)
    requires LooksAt(log, bs, ps) && Looks(Candidates(w.job), more, v)
    ensures LooksAt(log + [w], bs + more, ps + Tag(|log|, v))
  {
    VisitedJoin(bs, more);
    AtAppend(log, w, ps, v);
  }

  lemma OneMoreJobHolds<C>(log: seq<Walk<C>>, bs: seq<Batch<C>>, ps: seq<Place>,
                           w: Walk<C>, more: seq<Batch<C>>, hi: nat)
    requires HoldsAt(log, bs, ps) && Holds(Candidates(w.job), more, 0, hi)
    ensures HoldsAt(log + [w], bs + more, ps + Tag(|log|, Range(0, hi)))
  {
    WindowsJoin(bs, more);
    SelectRange(Candidates(w.job), 0, hi);
    AtAppend(log, w, ps, Range(0, hi));
  }

  lemma LogMore<C>(log: seq<Walk<C>>, w: Walk<C>)
    ensures Popped(log + [w]) == Popped(log) + Batches(w.job, 0, w.lens)
    ensures HandedOut(log + [w]) == HandedOut(log) + Tag(|log|, Range(0, Total(w.lens)))
    ensures LogFits(log + [w]) ==> LogFits(log) && Looked(log + [w]) == Looked(log) + Tag(|log|, LookedIn(w))
  {
    assert (log + [w])[..|log|] == log;
    assert LogFits(log + [w]) ==> WalkFits((log + [w])[|log|]);
  }

  /** Mining the batches of a run looks at the candidates at the places of `Looked`. */
  lemma {:induction false} PlacesLookedAt<C>(log: seq<Walk<C>>)
    requires LogFits(log)
    ensures LooksAt(log, Popped(log), Looked(log))
    decreases |log|
  {
    if log != [] {
      var w, init := log[|log| - 1], log[..|log| - 1];
      assert log == init + [w];
      LogMore(init, w);
      PlacesLookedAt(init);
      BatchesLook(w.job, 0, w.lens);
      OneMoreJobLooks(init, Popped(init), Looked(init), w, Batches(w.job, 0, w.lens), LookedIn(w));
    }
  }

  /** The batches of a run hold the candidates at the places of `HandedOut`. */
  lemma {:induction false} PlacesHandedOut<C>(log: seq<Walk<C>>)
    requires LogFits(log)
    ensures HoldsAt(log, Popped(log), HandedOut(log))
    decreases |log|
  {
    if log != [] {
      var w, init := log[|log| - 1], log[..|log| - 1];
      assert log == init + [w];
      LogMore(init, w);
      PlacesHandedOut(init);
      BatchesHold(w.job, 0, w.lens, Total(w.lens));
      OneMoreJobHolds(init, Popped(init), HandedOut(init), w, Batches(w.job, 0, w.lens), Total(w.lens));
    }
  }

  /** If every job is walked well, mining looks at exactly the candidates handed out, in order. */
  lemma WellWalkedIsMined<C>(log: seq<Walk<C>>)
    requires LogFits(log) && forall k :: 0 <= k < |log| ==> WalkedWell(log[k])
    ensures Minable(Popped(log)) && VisitedAll(Popped(log)) == Windows(Popped(log))
  {
    RunIsMinedIff(log);
    PlacesLookedAt(log);
    PlacesHandedOut(log);
  }

  // ---------------------------------------------------------------- runs of the queue

  ghost predicate SizesFit<C>(b: Book<C>) {
    forall k :: 0 <= k < |Jobs(b)| ==> |Candidates(Jobs(b)[k])| < TWO64
  }

  ghost function LogOf<C>(b: Book<C>): seq<Walk<C>> {
    Log(b.done, b.partial, b.queue)
  }

  lemma SoundLogFits<C>(b: Book<C>)
    requires Sound(b) && SizesFit(b)
    ensures |LogOf(b)| <= |Jobs(b)| && LogFits(LogOf(b))
    ensures forall k :: 0 <= k < |LogOf(b)| ==> LogOf(b)[k].job == Jobs(b)[k]
  {
    forall k | 0 <= k < |LogOf(b)|
      ensures k < |Jobs(b)| && LogOf(b)[k].job == Jobs(b)[k] && WalkFits(LogOf(b)[k])
    {
      LogJob(b, k);
    }
  }

  lemma LogJob<C>(b: Book<C>, k: nat)
    requires Sound(b) && k < |LogOf(b)|
    ensures k < |Jobs(b)| && LogOf(b)[k].job == Jobs(b)[k] && WalkFits(LogOf(b)[k])
  {
    if k < |b.done| {
      assert LogOf(b)[k] == b.done[k] && Complete(b.done[k]);
    }
  }

  /** At any moment of any run of pushes and pops: the batches popped so far make mining look at the
      candidates at the places of `Looked`, the candidates handed out are those at the places of
      `HandedOut`, and the two are the same if and only if every job has been walked well. */
  lemma PoppedIsMinedIff<C>(b: Book<C>)
    requires Sound(b) && SizesFit(b)
    ensures LogFits(LogOf(b)) && Minable(PoppedBy(b))
    ensures LooksAt(LogOf(b), PoppedBy(b), Looked(LogOf(b)))
    ensures PlacesFit(LogOf(b), HandedOut(LogOf(b))) && b.taken == At(LogOf(b), HandedOut(LogOf(b)))
    ensures Looked(LogOf(b)) == HandedOut(LogOf(b))
       <==> forall k :: 0 <= k < |LogOf(b)| ==> WalkedWell(LogOf(b)[k])
  {
    SoundLogFits(b);
    RunIsMinedIff(LogOf(b));
    PlacesLookedAt(LogOf(b));
    PlacesHandedOut(LogOf(b));
  }

  /** In particular when no job has a second span: wherever the batches are cut, mining them looks at
      exactly what was handed out, each candidate once and in order. */
  lemma UnwrappedIsMined<C>(b: Book<C>)
    requires Sound(b) && SizesFit(b)
    requires forall k :: 0 <= k < |Jobs(b)| ==> Jobs(b)[k].second == []
    ensures LogFits(LogOf(b)) && Looked(LogOf(b)) == HandedOut(LogOf(b))
    ensures Minable(PoppedBy(b)) && VisitedAll(PoppedBy(b)) == b.taken
  {
    SoundLogFits(b);
    forall k | 0 <= k < |LogOf(b)| ensures WalkedWell(LogOf(b)[k]) {
      assert LogOf(b)[k].job == Jobs(b)[k] && Candidates(Jobs(b)[k]) == Jobs(b)[k].first;
    }
    RunIsMinedIff(LogOf(b));
    WellWalkedIsMined(LogOf(b));
  }
}
