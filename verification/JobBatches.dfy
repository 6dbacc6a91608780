/** Queued jobs and the batches cut from them: the oldest job first, across job boundaries, by a cursor
    into the oldest job. */
module JobBatches {
  import opened MachineWords
  import opened Traversal

  /** A queued job's candidates in its two result spans. */
  datatype Job<C> = Job(cleanIndex: nat, first: seq<C>, second: seq<C>)

  datatype Batch<C> = Batch(job: Job<C>, offset: nat, len: nat)

  function Candidates<C>(j: Job<C>): seq<C> {
    j.first + j.second
  }

  /** All candidates of the jobs, oldest first. */
  function Stream<C>(jobs: seq<Job<C>>): seq<C> {
    if jobs == [] then [] else Candidates(jobs[0]) + Stream(jobs[1..])
  }

  predicate WindowFits<C>(b: Batch<C>) {
    b.len > 0 && b.offset + b.len <= |Candidates(b.job)|
  }

  function Window<C>(b: Batch<C>): seq<C> {
    if WindowFits(b) then Candidates(b.job)[b.offset..b.offset + b.len] else []
  }

  /** The next batch of a job of which everything before the cursor has been taken. */
  function NextBatch<C>(j: Job<C>, cursor: nat, room: nat): Batch<C> {
    var left := |Candidates(j)| - cursor;
    Batch(j, cursor, if left < 0 then 0 else Min(room, left))
  }

  function Windows<C>(bs: seq<Batch<C>>): seq<C> {
    if bs == [] then [] else Windows(bs[..|bs| - 1]) + Window(bs[|bs| - 1])
  }

  lemma WindowsAppend<C>(bs: seq<Batch<C>>, b: Batch<C>)
    ensures Windows(bs + [b]) == Windows(bs) + Window(b)
  {
    assert (bs + [b])[..|bs|] == bs;
  }

  lemma WindowsOne<C>(b: Batch<C>)
    ensures Windows([b]) == Window(b)
  {
    assert [b][..0] == [];
  }

  lemma {:induction false} WindowsJoin<C>(a: seq<Batch<C>>, b: seq<Batch<C>>)
    ensures Windows(a + b) == Windows(a) + Windows(b)
    decreases |b|
  {
    if b == [] {
      assert a + b == a;
    } else {
      var init, last := b[..|b| - 1], b[|b| - 1];
      WindowsJoin(a, init);
      WindowsAppend(a + init, last);
      Associate(a, init, [last]);
      Associate(Windows(a), Windows(init), Window(last));
      assert b == init + [last];
    }
  }

  lemma {:induction false} StreamAppend<C>(jobs: seq<Job<C>>, j: Job<C>)
    ensures Stream(jobs + [j]) == Stream(jobs) + Candidates(j)
    decreases |jobs|
  {
    if jobs == [] {
      assert jobs + [j] == [j] && [j][1..] == [];
    } else {
      assert (jobs + [j])[1..] == jobs[1..] + [j];
      StreamAppend(jobs[1..], j);
    }
  }

  /** The cursor points into the oldest job, and no job is empty. */
  ghost predicate Fits<C>(jobs: seq<Job<C>>, cursor: nat) {
    && (forall i :: 0 <= i < |jobs| ==> Candidates(jobs[i]) != [])
    && (if jobs == [] then cursor == 0 else cursor < |Candidates(jobs[0])|)
  }

  /** What is still to be handed out. */
  function Remaining<C>(jobs: seq<Job<C>>, cursor: nat): seq<C> {
    if cursor <= |Stream(jobs)| then Stream(jobs)[cursor..] else []
  }

  /** Moving the cursor by m within the oldest job takes m candidates off what is pending. */
  lemma CutStream<C>(jobs: seq<Job<C>>, cursor: nat, m: nat, rest: seq<Job<C>>, next: nat)
    requires Fits(jobs, cursor) && jobs != [] && 0 < m && cursor + m <= |Candidates(jobs[0])|
    requires (rest, next) == Advanced(jobs, cursor + m)
    ensures Fits(rest, next)
    ensures Remaining(jobs, cursor) == Window(Batch(jobs[0], cursor, m)) + Remaining(rest, next)
  {
    CutFits(jobs, cursor, m, rest, next);
    var at := cursor + m;
    RemainingSplits(jobs, cursor, m, at, Candidates(jobs[0]), Stream(jobs[1..]));
    RemainingAdvances(jobs, at, rest, next);
  }

  lemma RemainingAdvances<C>(jobs: seq<Job<C>>, at: nat, rest: seq<Job<C>>, next: nat)
    requires jobs != [] && at <= |Candidates(jobs[0])| && (rest, next) == Advanced(jobs, at)
    ensures Remaining(jobs, at) == Remaining(rest, next)
  {
    if at == |Candidates(jobs[0])| {
      StreamFrom(jobs, Candidates(jobs[0]), Stream(jobs[1..]), at);
      assert Remaining(rest, 0) == Stream(rest);
    }
  }

  lemma RemainingSplits<C>(jobs: seq<Job<C>>, cursor: nat, m: nat, at: nat, c: seq<C>, tail: seq<C>)
    requires jobs != [] && c == Candidates(jobs[0]) && tail == Stream(jobs[1..])
    requires at == cursor + m <= |c|
    ensures Remaining(jobs, cursor) == Window(Batch(jobs[0], cursor, m)) + Remaining(jobs, at)
  {
    SplitAfter(c, tail, cursor, at);
    StreamFrom(jobs, c, tail, cursor);
    StreamFrom(jobs, c, tail, at);
    assert Window(Batch(jobs[0], cursor, m)) == c[cursor..at];
  }

  lemma StreamFrom<C>(jobs: seq<Job<C>>, c: seq<C>, tail: seq<C>, cursor: nat)
    requires jobs != [] && c == Candidates(jobs[0]) && tail == Stream(jobs[1..]) && cursor <= |c|
    ensures Remaining(jobs, cursor) == (c + tail)[cursor..]
  {
  }

  lemma CutFits<C>(jobs: seq<Job<C>>, cursor: nat, m: nat, rest: seq<Job<C>>, next: nat)
    requires Fits(jobs, cursor) && jobs != [] && cursor + m <= |Candidates(jobs[0])|
    requires (rest, next) == Advanced(jobs, cursor + m)
    ensures Fits(rest, next)
  {
    if rest != jobs && rest != [] { assert rest[0] == jobs[1]; }
  }

  lemma PushStream<C>(jobs: seq<Job<C>>, cursor: nat, j: Job<C>, taken: seq<C>)
    requires Fits(jobs, cursor) && |Candidates(j)| > 0
    ensures Fits(jobs + [j], cursor)
    ensures |Remaining(jobs + [j], cursor)| == |Remaining(jobs, cursor)| + |Candidates(j)|
    ensures taken + Remaining(jobs + [j], cursor) == taken + Remaining(jobs, cursor) + Candidates(j)
  {
    StreamAppend(jobs, j);
    assert Remaining(jobs + [j], cursor) == Remaining(jobs, cursor) + Candidates(j);
  }

  /** The queue and the cursor once the cursor has reached this position in the oldest job. */
  function Advanced<C>(jobs: seq<Job<C>>, cursor: nat): (seq<Job<C>>, nat)
    requires jobs != []
  {
    if cursor == |Candidates(jobs[0])| then (jobs[1..], 0) else (jobs, cursor)
  }

  lemma SplitAfter<C>(c: seq<C>, tail: seq<C>, i: nat, at: nat)
    requires i <= at <= |c|
    ensures (c + tail)[i..] == c[i..at] + (c + tail)[at..]
    ensures (c + tail)[|c|..] == tail
  {
  }

  /** The batches a request for n candidates cuts: one for each job it reaches. */
  function NextBatches<C>(jobs: seq<Job<C>>, cursor: nat, n: nat): seq<Batch<C>>
    requires Fits(jobs, cursor)
    decreases n
  {
    if jobs == [] || n == 0 then []
    else
      var m := Min(n, |Candidates(jobs[0])| - cursor);
      var (rest, next) := Advanced(jobs, cursor + m);
      [Batch(jobs[0], cursor, m)] + NextBatches(rest, next, n - m)
  }

  /** The queue and the cursor after a request for n candidates. */
  function AfterNext<C>(jobs: seq<Job<C>>, cursor: nat, n: nat): (seq<Job<C>>, nat)
    requires Fits(jobs, cursor)
    decreases n
  {
    if jobs == [] || n == 0 then (jobs, cursor)
    else
      var m := Min(n, |Candidates(jobs[0])| - cursor);
      var (rest, next) := Advanced(jobs, cursor + m);
      AfterNext(rest, next, n - m)
  }

  lemma {:induction false} NextBatchesFit<C>(jobs: seq<Job<C>>, cursor: nat, n: nat)
    requires Fits(jobs, cursor)
    ensures forall b :: b in NextBatches(jobs, cursor, n) ==> WindowFits(b) && b.job in jobs
    decreases n
  {
    if jobs != [] && n > 0 {
      var m := Min(n, |Candidates(jobs[0])| - cursor);
      var (rest, next) := Advanced(jobs, cursor + m);
      NextCut(jobs, cursor, n, m, rest, next);
      NextBatchesFit(rest, next, n - m);
    }
  }

  lemma NextCut<C>(jobs: seq<Job<C>>, cursor: nat, n: nat, m: nat, rest: seq<Job<C>>, next: nat)
    requires Fits(jobs, cursor) && jobs != [] && n > 0 && m == Min(n, |Candidates(jobs[0])| - cursor)
    requires (rest, next) == Advanced(jobs, cursor + m)
    ensures Fits(rest, next) && WindowFits(Batch(jobs[0], cursor, m))
    ensures NextBatches(jobs, cursor, n) == [Batch(jobs[0], cursor, m)] + NextBatches(rest, next, n - m)
    ensures AfterNext(jobs, cursor, n) == AfterNext(rest, next, n - m)
  {
  }

  // ---------------------------------------------------------------- how jobs have been cut so far

  /** A job and the lengths of the consecutive batches cut from it. */
  datatype Walk<C> = Walk(job: Job<C>, lens: seq<nat>)

  function Batches<C>(j: Job<C>, start: nat, lens: seq<nat>): seq<Batch<C>>
    decreases |lens|
  {
    if lens == [] then [] else [Batch(j, start, lens[0])] + Batches(j, start + lens[0], lens[1..])
  }

  /** All batches cut, in order. */
  function Popped<C>(log: seq<Walk<C>>): seq<Batch<C>> {
    if log == [] then []
    else Popped(log[..|log| - 1]) + Batches(log[|log| - 1].job, 0, log[|log| - 1].lens)
  }

  ghost predicate WalkFits<C>(w: Walk<C>) {
    Positive(w.lens) && Total(w.lens) <= |Candidates(w.job)|
  }

  ghost predicate Complete<C>(w: Walk<C>) {
    Positive(w.lens) && Total(w.lens) == |Candidates(w.job)|
  }

  lemma {:induction false} TotalAppend(lens: seq<nat>, m: nat)
    ensures Total(lens + [m]) == Total(lens) + m
    decreases |lens|
  {
    if lens != [] {
      assert (lens + [m])[1..] == lens[1..] + [m];
      TotalAppend(lens[1..], m);
    }
  }

  lemma {:induction false} BatchesAppend<C>(j: Job<C>, start: nat, lens: seq<nat>, m: nat)
    ensures Batches(j, start, lens + [m]) == Batches(j, start, lens) + [Batch(j, start + Total(lens), m)]
    decreases |lens|
  {
    if lens == [] {
      assert lens + [m] == [m] && [m][1..] == [];
    } else {
      assert (lens + [m])[1..] == lens[1..] + [m];
      BatchesAppend(j, start + lens[0], lens[1..], m);
    }
  }

  lemma PoppedMore<C>(log: seq<Walk<C>>, j: Job<C>, lens: seq<nat>, m: nat)
    ensures Popped(log + [Walk(j, lens + [m])])
         == Popped(log + [Walk(j, lens)]) + [Batch(j, Total(lens), m)]
  {
    BatchesAppend(j, 0, lens, m);
    assert (log + [Walk(j, lens)])[..|log|] == log && (log + [Walk(j, lens + [m])])[..|log|] == log;
  }

  lemma PoppedUncut<C>(log: seq<Walk<C>>, j: Job<C>)
    ensures Popped(log + [Walk(j, [])]) == Popped(log)
  {
    assert (log + [Walk(j, [])])[..|log|] == log;
  }

  // ---------------------------------------------------------------- the queue's state

  /** The queue with its cursor and watermark, and its history: the jobs that have been used up, how
      the oldest job has been cut so far, and the candidates accepted and handed out. */
  datatype Book<C> = Book(done: seq<Walk<C>>, partial: seq<nat>, queue: seq<Job<C>>, cursor: nat,
                          watermark: nat, accepted: seq<C>, taken: seq<C>)

  /** How every job that has been reached was cut. */
  function Log<C>(done: seq<Walk<C>>, partial: seq<nat>, queue: seq<Job<C>>): seq<Walk<C>> {
    if queue == [] then done else done + [Walk(queue[0], partial)]
  }

  /** All batches handed out so far. */
  function PoppedBy<C>(b: Book<C>): seq<Batch<C>> {
    Popped(Log(b.done, b.partial, b.queue))
  }

  function Used<C>(done: seq<Walk<C>>): (jobs: seq<Job<C>>)
    ensures |jobs| == |done| && forall i :: 0 <= i < |jobs| ==> jobs[i] == done[i].job
  {
    if done == [] then [] else Used(done[..|done| - 1]) + [done[|done| - 1].job]
  }

  /** The jobs accepted, oldest first: those used up and those queued. */
  function Jobs<C>(b: Book<C>): seq<Job<C>> {
    Used(b.done) + b.queue
  }

  /** The used-up jobs are cut to their ends and the oldest queued one up to the cursor. */
  ghost predicate CutSoFar<C>(done: seq<Walk<C>>, partial: seq<nat>, queue: seq<Job<C>>, cursor: nat) {
    && (forall k :: 0 <= k < |done| ==> Complete(done[k]))
    && Positive(partial) && Total(partial) == cursor && (queue == [] ==> partial == [])
  }

  ghost predicate Balanced<C>(b: Book<C>) {
    var pending := Remaining(b.queue, b.cursor);
    b.watermark == |pending| && b.taken + pending == b.accepted
  }

  ghost predicate Sound<C>(b: Book<C>) {
    && Fits(b.queue, b.cursor) && CutSoFar(b.done, b.partial, b.queue, b.cursor) && Balanced(b)
    && b.taken == Windows(PoppedBy(b))
  }

  /** One accepted job. */
  function PushBook<C>(b: Book<C>, j: Job<C>): Book<C> {
    b.(queue := b.queue + [j], watermark := b.watermark + |Candidates(j)|,
       accepted := b.accepted + Candidates(j))
  }

  /** One batch of m candidates. */
  ghost function CutBook<C>(b: Book<C>, m: nat): Book<C>
    requires b.queue != [] && m <= b.watermark
  {
    var j, lens := b.queue[0], b.partial + [m];
    var taken := b.taken + Window(Batch(j, b.cursor, m));
    if b.cursor + m == |Candidates(j)| then
      Book(b.done + [Walk(j, lens)], [], b.queue[1..], 0, b.watermark - m, b.accepted, taken)
    else
      Book(b.done, lens, b.queue, b.cursor + m, b.watermark - m, b.accepted, taken)
  }

  lemma LogOfPush<C>(done: seq<Walk<C>>, partial: seq<nat>, queue: seq<Job<C>>, j: Job<C>)
    requires queue == [] ==> partial == []
    ensures Popped(Log(done, partial, queue + [j])) == Popped(Log(done, partial, queue))
  {
    if queue == [] {
      assert (queue + [j])[0] == j;
      PoppedUncut(done, j);
    }
  }

  lemma PushKeeps<C>(b: Book<C>, j: Job<C>)
    requires Sound(b) && Candidates(j) != []
    ensures Sound(PushBook(b, j))
    ensures PoppedBy(PushBook(b, j)) == PoppedBy(b) && Jobs(PushBook(b, j)) == Jobs(b) + [j]
  {
    LogOfPush(b.done, b.partial, b.queue, j);
    PushStream(b.queue, b.cursor, j, b.taken);
  }

  lemma LogOfCut<C>(done: seq<Walk<C>>, partial: seq<nat>, queue: seq<Job<C>>, m: nat)
    requires queue != []
    ensures var j, lens := queue[0], partial + [m];
            var popped := Popped(Log(done, partial, queue)) + [Batch(j, Total(partial), m)];
            && Popped(Log(done, lens, queue)) == popped
            && Popped(Log(done + [Walk(j, lens)], [], queue[1..])) == popped
  {
    PoppedMore(done, queue[0], partial, m);
    if |queue| > 1 {
      PoppedUncut(done + [Walk(queue[0], partial + [m])], queue[1]);
    }
  }

  lemma CutRecords<C>(b: Book<C>, m: nat)
    requires CutSoFar(b.done, b.partial, b.queue, b.cursor) && b.queue != []
    requires 0 < m <= b.watermark && b.cursor + m <= |Candidates(b.queue[0])|
    ensures var r := CutBook(b, m); CutSoFar(r.done, r.partial, r.queue, r.cursor)
  {
    TotalAppend(b.partial, m);
  }

  lemma CutBalances<C>(b: Book<C>, m: nat)
    requires Fits(b.queue, b.cursor) && Balanced(b) && b.queue != []
    requires 0 < m && b.cursor + m <= |Candidates(b.queue[0])|
    ensures m <= b.watermark && Fits(CutBook(b, m).queue, CutBook(b, m).cursor) && Balanced(CutBook(b, m))
  {
    var (rest, next) := Advanced(b.queue, b.cursor + m);
    CutStream(b.queue, b.cursor, m, rest, next);
    Associate(b.taken, Window(Batch(b.queue[0], b.cursor, m)), Remaining(rest, next));
  }

  lemma CutTakes<C>(b: Book<C>, m: nat)
    requires b.queue != [] && Total(b.partial) == b.cursor && m <= b.watermark
    ensures var r := CutBook(b, m);
            PoppedBy(r) == PoppedBy(b) + [Batch(b.queue[0], b.cursor, m)]
    ensures var r := CutBook(b, m);
            b.taken == Windows(PoppedBy(b))
            ==> r.taken == Windows(PoppedBy(r))
  {
    LogOfCut(b.done, b.partial, b.queue, m);
    WindowsAppend(PoppedBy(b), Batch(b.queue[0], b.cursor, m));
  }

  lemma CutKeeps<C>(b: Book<C>, m: nat)
    requires Sound(b) && b.queue != [] && 0 < m <= |Candidates(b.queue[0])| - b.cursor
    ensures m <= b.watermark && Sound(CutBook(b, m))
    ensures var r := CutBook(b, m);
            PoppedBy(r) == PoppedBy(b) + [Batch(b.queue[0], b.cursor, m)]
  {
    CutBalances(b, m);
    CutRecords(b, m);
    CutTakes(b, m);
  }

  /** From b to r these batches of n candidates in all have been handed out. */
  ghost predicate HandedOver<C>(b: Book<C>, r: Book<C>, bs: seq<Batch<C>>, n: nat) {
    && PoppedBy(r) == PoppedBy(b) + bs && r.taken == b.taken + Windows(bs)
    && |Windows(bs)| == n == b.watermark - r.watermark
  }

  lemma NothingHanded<C>(b: Book<C>)
    ensures HandedOver(b, b, [], 0)
  {
    assert PoppedBy(b) + [] == PoppedBy(b) && b.taken + [] == b.taken;
  }

  lemma HandedJoin<C>(b: Book<C>, c: Book<C>, r: Book<C>, x: seq<Batch<C>>, y: seq<Batch<C>>, m: nat, n: nat)
    requires HandedOver(b, c, x, m) && HandedOver(c, r, y, n)
    ensures HandedOver(b, r, x + y, m + n)
  {
    Associate(PoppedBy(b), x, y);
    Associate(b.taken, Windows(x), Windows(y));
    WindowsJoin(x, y);
  }

  lemma CutHands<C>(b: Book<C>, m: nat)
    requires Sound(b) && b.queue != [] && 0 < m <= |Candidates(b.queue[0])| - b.cursor
    ensures m <= b.watermark && HandedOver(b, CutBook(b, m), [Batch(b.queue[0], b.cursor, m)], m)
  {
    CutBalances(b, m);
    CutTakes(b, m);
    WindowsOne(Batch(b.queue[0], b.cursor, m));
  }

  lemma EmptyIsSound<C>(b: Book<C>)
    requires b == Book([], [], [], 0, 0, [], [])
    ensures Sound(b)
  {
  }

  /** One pass of the loop in `pop` hands out this batch, the first of what a request for `room`
      candidates gets. */
  ghost predicate CutStep<C>(b: Book<C>, c: Book<C>, room: nat, batch: Batch<C>) {
    && Fits(b.queue, b.cursor) && Fits(c.queue, c.cursor) && 0 < batch.len <= room
    && WindowFits(batch) && HandedOver(b, c, [batch], batch.len)
    && NextBatches(b.queue, b.cursor, room) == [batch] + NextBatches(c.queue, c.cursor, room - batch.len)
    && AfterNext(b.queue, b.cursor, room) == AfterNext(c.queue, c.cursor, room - batch.len)
  }

  lemma CutNext<C>(b: Book<C>, room: nat, batch: Batch<C>)
    requires Fits(b.queue, b.cursor) && b.queue != [] && 0 < batch.len <= b.watermark
    requires batch == NextBatch(b.queue[0], b.cursor, room)
    requires HandedOver(b, CutBook(b, batch.len), [batch], batch.len)
    ensures CutStep(b, CutBook(b, batch.len), room, batch)
  {
    NextCut(b.queue, b.cursor, room, batch.len, CutBook(b, batch.len).queue, CutBook(b, batch.len).cursor);
  }

  /** Handing out batches changes neither the jobs nor the candidates accepted. */
  ghost predicate SameJobs<C>(b: Book<C>, c: Book<C>) {
    Jobs(c) == Jobs(b) && c.accepted == b.accepted
  }

  lemma CutSameJobs<C>(b: Book<C>, m: nat)
    requires b.queue != [] && m <= b.watermark
    ensures SameJobs(b, CutBook(b, m))
  {
    OneMoreUsed(b.done, Walk(b.queue[0], b.partial + [m]), b.queue);
  }

  lemma OneMoreUsed<C>(done: seq<Walk<C>>, w: Walk<C>, queue: seq<Job<C>>)
    requires queue != [] && queue[0] == w.job
    ensures Used(done + [w]) + queue[1..] == Used(done) + queue
  {
    assert (done + [w])[..|done|] == done && queue == [w.job] + queue[1..];
    Associate(Used(done), [w.job], queue[1..]);
  }

  lemma NextBatchFits<C>(b: Book<C>, room: nat)
    requires Sound(b) && b.queue != [] && room > 0
    ensures 0 < NextBatch(b.queue[0], b.cursor, room).len <= |Candidates(b.queue[0])| - b.cursor
  {
  }

  /** A pass of the loop leaves the books sound and takes one step of the request. */
  lemma CutWorks<C>(b: Book<C>, room: nat, batch: Batch<C>)
    requires Sound(b) && b.queue != [] && room > 0 && batch == NextBatch(b.queue[0], b.cursor, room)
    ensures 0 < batch.len <= b.watermark
    ensures var c := CutBook(b, batch.len);
            Sound(c) && SameJobs(b, c) && CutStep(b, c, room, batch)
  {
    NextBatchFits(b, room);
    CutHands(b, batch.len);
    CutNext(b, room, batch);
    CutKeeps(b, batch.len);
    CutSameJobs(b, batch.len);
  }

  /** What the loop in `pop` has so far: the batches and their number of candidates. */
  datatype Served<C> = Served(batches: seq<Batch<C>>, total: nat)

  function Add<C>(s: Served<C>, b: Batch<C>): Served<C> {
    Served(s.batches + [b], s.total + b.len)
  }

  /** From b0 on the loop has handed this out for a request of n candidates. */
  ghost predicate Serving<C>(b0: Book<C>, b: Book<C>, n: nat, s: Served<C>) {
    Handed(b0, b, s) && Ahead(b0, b, n, s)
  }

  ghost predicate Handed<C>(b0: Book<C>, b: Book<C>, s: Served<C>) {
    match s
    case Served(res, total) => HandedOver(b0, b, res, total) && SameJobs(b0, b)
  }

  /** What b has ahead of it for the rest of the request, after s, is what b0 had for all of it. */
  ghost predicate Ahead<C>(b0: Book<C>, b: Book<C>, n: nat, s: Served<C>) {
    match s
    case Served(res, total) =>
      && Fits(b0.queue, b0.cursor) && Fits(b.queue, b.cursor) && total <= n
      && res + NextBatches(b.queue, b.cursor, n - total) == NextBatches(b0.queue, b0.cursor, n)
      && AfterNext(b.queue, b.cursor, n - total) == AfterNext(b0.queue, b0.cursor, n)
  }

  lemma StartServing<C>(b: Book<C>, n: nat)
    requires Fits(b.queue, b.cursor)
    ensures Serving(b, b, n, Served([], 0))
  {
    NothingHanded(b);
    assert [] + NextBatches(b.queue, b.cursor, n) == NextBatches(b.queue, b.cursor, n);
  }

  lemma HandedNext<C>(b0: Book<C>, b: Book<C>, s: Served<C>, batch: Batch<C>)
    requires Handed(b0, b, s) && Sound(b) && b.queue != []
    requires batch.job == b.queue[0] && batch.offset == b.cursor
    requires 0 < batch.len <= |Candidates(b.queue[0])| - b.cursor
    ensures batch.len <= b.watermark && Handed(b0, CutBook(b, batch.len), Add(s, batch))
  {
    CutHands(b, batch.len);
    HandedJoin(b0, b, CutBook(b, batch.len), s.batches, [batch], s.total, batch.len);
    CutSameJobs(b, batch.len);
  }

  lemma AheadNext<C>(b0: Book<C>, b: Book<C>, n: nat, s: Served<C>, batch: Batch<C>)
    requires Ahead(b0, b, n, s) && b.queue != [] && s.total < n && batch.len <= b.watermark
    requires batch == NextBatch(b.queue[0], b.cursor, n - s.total)
    ensures Ahead(b0, CutBook(b, batch.len), n, Add(s, batch))
  {
    var c, left := CutBook(b, batch.len), n - s.total;
    NextCut(b.queue, b.cursor, left, batch.len, c.queue, c.cursor);
    FirstOfRest(s.batches, batch, NextBatches(c.queue, c.cursor, left - batch.len),
                NextBatches(b.queue, b.cursor, left), s.batches + [batch]);
  }

  lemma ServeNext<C>(b0: Book<C>, b: Book<C>, n: nat, s: Served<C>, batch: Batch<C>)
    requires Serving(b0, b, n, s) && Sound(b) && b.queue != [] && s.total < n
    requires batch == NextBatch(b.queue[0], b.cursor, n - s.total)
    ensures 0 < batch.len <= b.watermark
    ensures Serving(b0, CutBook(b, batch.len), n, Add(s, batch))
  {
    NextBatchFits(b, n - s.total);
    HandedNext(b0, b, s, batch);
    AheadNext(b0, b, n, s, batch);
  }

  lemma FirstOfRest<T>(done: seq<T>, x: T, rest: seq<T>, next: seq<T>, done': seq<T>)
    requires next == [x] + rest && done' == done + [x]
    ensures done' + rest == done + next
  {
  }

  lemma DoneServing<C>(b0: Book<C>, b: Book<C>, n: nat, res: seq<Batch<C>>, total: nat)
    requires Serving(b0, b, n, Served(res, total)) && Sound(b) && (b.queue == [] || total == n)
    ensures res == NextBatches(b0.queue, b0.cursor, n) && total == Min(n, b0.watermark)
    ensures (b.queue, b.cursor) == AfterNext(b0.queue, b0.cursor, n)
    ensures HandedOver(b0, b, res, total) && SameJobs(b0, b)
  {
    assert res + [] == res;
  }
}
