/** The CPU side's queue of mined jobs: candidates are consumed first in, first out, in batches cut
    across job boundaries by a cursor into the oldest job. */
module JobQueue {
  import opened JobBatches
  import opened MachineWords
  import opened MiningRuns
  import opened Options
  import opened Traversal

  /** A double as far as it matters here: 0/0 or a number. */
  datatype Double = NaN | Number(x: real)

  datatype WorkerJob<C> = WorkerJob(batches: seq<Batch<C>>, mineProportion: Double, total: nat,
                                    cleanIndex: nat)

  class Queue<C> {
    /** `fresh` in the source: nothing has been pushed since the last clear. */
    var untouched: bool
    var hashrate: Option<nat>
    var cleanIndex: nat
    var cursor: nat
    var queue: seq<Job<C>>
    var watermark: nat
    /** The queue's state with its history since the last clear. */
    ghost var book: Book<C>

    ghost predicate Mirrors(b: Book<C>)
      reads this
    {
      b.queue == queue && b.cursor == cursor && b.watermark == watermark
    }

    ghost predicate Valid()
      reads this
    {
      Mirrors(book) && Sound(book) && (untouched ==> book.accepted == [])
    }

    constructor ()
      ensures Valid() && book == Book([], [], [], 0, 0, [], [])
      ensures cleanIndex == 0 && hashrate == None && untouched
    {
      untouched, hashrate, cleanIndex, cursor, queue, watermark := true, None, 0, 0, [], 0;
      book := Book([], [], [], 0, 0, [], []);
    }

    method Clear(newCleanIndex: nat)
      requires Valid()
      modifies this
      ensures Valid() && book == Book([], [], [], 0, 0, [], [])
      ensures cleanIndex == newCleanIndex && hashrate == None && untouched
    {
      untouched, hashrate, cursor, queue, watermark := true, None, 0, [], 0;
      cleanIndex := newCleanIndex;
      ghost var empty: Book<C> := Book([], [], [], 0, 0, [], []);
      EmptyIsSound(empty);
      Become(empty);
    }

    /** The history follows once the fields are as it describes. */
    ghost method Become(b: Book<C>)
      requires Mirrors(b) && Sound(b) && (untouched ==> b.accepted == [])
      modifies `book
      ensures Valid() && book == b
    {
      book := b;
    }

    /** Stale and empty jobs are dropped. */
    method Push(j: Job<C>)
      requires Valid()
      modifies `untouched, `queue, `watermark, `book
      ensures Valid() && PoppedBy(book) == old(PoppedBy(book))
      ensures var dropped := j.cleanIndex < cleanIndex || Candidates(j) == [];
              && book == (if dropped then old(book) else PushBook(old(book), j))
              && untouched == (old(untouched) && dropped)
    {
      if j.cleanIndex < cleanIndex {
        return;
      }
      var n := |j.first| + |j.second|;
      if n == 0 {
        return;
      }
      Accept(j, n);
    }

    method Accept(j: Job<C>, n: nat)
      requires Valid() && n == |Candidates(j)| && n > 0
      modifies `untouched, `queue, `watermark, `book
      ensures Valid() && PoppedBy(book) == old(PoppedBy(book))
      ensures book == PushBook(old(book), j) && !untouched
    {
      ghost var after := PushBook(book, j);
      PushKeeps(book, j);
      Append(j, n);
      Become(after);
    }

    method Append(j: Job<C>, n: nat)
      requires Mirrors(book) && n == |Candidates(j)|
      modifies `untouched, `queue, `watermark
      ensures Mirrors(PushBook(book, j)) && !untouched
    {
      untouched := false;
      watermark := watermark + n;
      queue := queue + [j];
    }

    /** The batches are one window of each job that the request reaches, the first from the cursor on;
        they hold exactly the next min(n, available) candidates in order, and the rest stays pending. */
    method Pop(n: nat) returns (r: Option<WorkerJob<C>>)
      requires Valid() && (n > 0 || queue == [])
      modifies `cursor, `queue, `watermark, `book
      ensures Valid() && SameJobs(old(book), book)
      ensures r == None <==> old(watermark) == 0
      ensures r == None ==> book == old(book)
      ensures r.Some? ==>
                && (forall b :: b in r.value.batches ==> WindowFits(b) && b.job in old(queue))
                && r.value.batches == NextBatches(old(queue), old(cursor), n)
                && r.value.total == Min(n, old(watermark))
                && (queue, cursor) == AfterNext(old(queue), old(cursor), n)
                && HandedOver(old(book), book, r.value.batches, r.value.total)
                && r.value.cleanIndex == cleanIndex
                && r.value.mineProportion == Proportion(hashrate, watermark)
    {
      var total := 0;
      var res: seq<Batch<C>> := [];
      StartServing(book, n);
      while queue != [] && total < n
        invariant Valid()
        invariant Serving(old(book), book, n, Served(res, total))
        invariant if res == [] then total == 0 && book == old(book) else total > 0
        decreases n - total
      {
        res, total := PopMore(n, res, total, old(book));
      }
      DoneServing(old(book), book, n, res, total);
      NextBatchesFit(old(queue), old(cursor), n);
      if res == [] {
        return None;
      }
      r := Some(WorkerJob(res, Proportion(hashrate, watermark), total, cleanIndex));
    }

    method PopMore(n: nat, res0: seq<Batch<C>>, total0: nat, ghost start: Book<C>)
      returns (res: seq<Batch<C>>, total: nat)
      requires Valid() && queue != [] && total0 < n && Serving(start, book, n, Served(res0, total0))
      modifies `cursor, `queue, `watermark, `book
      ensures Valid() && Serving(start, book, n, Served(res, total)) && total > total0
      ensures res != []
    {
      ghost var was, next := book, NextBatch(queue[0], cursor, n - total0);
      ServeNext(start, was, n, Served(res0, total0), next);
      var b := CutOne(n - total0);
      res := res0 + [b];
      total := total0 + b.len;
      assert Served(res, total) == Add(Served(res0, total0), next) && book == CutBook(was, next.len);
    }

    /** One pass of the loop in `pop`: at most `room` candidates of the oldest job, from the cursor on. */
    method Cut(room: nat) returns (b: Batch<C>)
      requires Valid() && queue != [] && room > 0
      modifies `cursor, `queue, `watermark, `book
      ensures Valid() && CutStep(old(book), book, room, b) && SameJobs(old(book), book)
      ensures b == NextBatch(old(queue)[0], old(cursor), room)
      ensures b.len <= old(watermark) && book == CutBook(old(book), b.len)
    {
      CutWorks(book, room, NextBatch(queue[0], cursor, room));
      b := CutOne(room);
    }

    /** The work of this pass. */
    method CutOne(room: nat) returns (b: Batch<C>)
      requires Valid() && queue != [] && room > 0
      modifies `cursor, `queue, `watermark, `book
      ensures Valid() && b == NextBatch(old(queue)[0], old(cursor), room)
      ensures b.len <= old(watermark) && book == CutBook(old(book), b.len)
    {
      ghost var was, next := book, NextBatch(queue[0], cursor, room);
      NextBatchFits(was, room);
      CutKeeps(was, next.len);
      ghost var after := CutBook(was, next.len);
      var j := queue[0];
      var size := |j.first| + |j.second|;
      var m := Min(room, size - cursor);
      b := Batch(j, cursor, m);
      assert b == next;
      Move(b.len);
      Become(after);
    }

    method Move(m: nat)
      requires Mirrors(book) && queue != [] && m <= watermark
      modifies `cursor, `queue, `watermark
      ensures Mirrors(CutBook(book, m))
    {
      var size := |queue[0].first| + |queue[0].second|;
      cursor := cursor + m;
      watermark := watermark - m;
      if cursor == size {
        cursor := 0;
        queue := queue[1..];
      }
    }
  }

  // ---------------------------------------------------------------- runs

  datatype Call<C> = Push(job: Job<C>) | Pop(n: nat) | Clear(cleanIndex: nat)

  /** `pop` asserts that it makes progress. */
  predicate Allowed<C>(call: Call<C>) {
    call.Pop? ==> call.n > 0
  }

  /** What a run comes to: the clean index, the jobs accepted since the last clear, how many of their
      candidates have been popped, and the candidates popped before. */
  datatype Session<C> = Session(cleanIndex: nat, jobs: seq<Job<C>>, taken: nat, earlier: seq<C>)

  ghost predicate InStream<C>(s: Session<C>) {
    s.taken <= |Stream(s.jobs)|
  }

  /** All candidates popped, in order. */
  function HandedIn<C>(s: Session<C>): seq<C>
    requires InStream(s)
  {
    s.earlier + Stream(s.jobs)[..s.taken]
  }

  function After<C>(s: Session<C>, call: Call<C>): (t: Session<C>)
    requires InStream(s)
    ensures InStream(t)
  {
    match call
    case Push(j) =>
      if j.cleanIndex < s.cleanIndex || Candidates(j) == [] then s
      else
        StreamAppend(s.jobs, j);
        s.(jobs := s.jobs + [j])
    case Pop(n) => s.(taken := s.taken + Min(n, |Stream(s.jobs)| - s.taken))
    case Clear(index) => Session(index, [], 0, HandedIn(s))
  }

  function Outcome<C>(calls: seq<Call<C>>): (s: Session<C>)
    ensures InStream(s)
  {
    if calls == [] then Session(0, [], 0, [])
    else After(Outcome(calls[..|calls| - 1]), calls[|calls| - 1])
  }

  /** The batches popped and the candidates they hold, over the books that were closed by clears. */
  function AllPopped<C>(books: seq<Book<C>>): seq<Batch<C>> {
    if books == [] then [] else AllPopped(books[..|books| - 1]) + PoppedBy(books[|books| - 1])
  }

  function AllTaken<C>(books: seq<Book<C>>): seq<C> {
    if books == [] then [] else AllTaken(books[..|books| - 1]) + books[|books| - 1].taken
  }

  lemma OneMoreBook<C>(books: seq<Book<C>>, b: Book<C>)
    ensures AllPopped(books + [b]) == AllPopped(books) + PoppedBy(b)
    ensures AllTaken(books + [b]) == AllTaken(books) + b.taken
  {
    assert (books + [b])[..|books|] == books;
  }

  /** The book since the last clear, of a run with this outcome. */
  ghost predicate Current<C>(b: Book<C>, s: Session<C>) {
    Sound(b) && Matches(b, s)
  }

  ghost predicate Matches<C>(b: Book<C>, s: Session<C>) {
    match s
    case Session(_, jobs, taken, _) =>
      Jobs(b) == jobs && b.accepted == Stream(jobs) && |b.taken| == taken
  }

  ghost predicate AllSound<C>(books: seq<Book<C>>) {
    forall k :: 0 <= k < |books| ==> Sound(books[k])
  }

  /** The run has closed these books, has b open, and has popped these batches. */
  ghost predicate Ran<C>(closed: seq<Book<C>>, b: Book<C>, s: Session<C>, batches: seq<Batch<C>>) {
    && AllSound(closed) && Current(b, s) && s.earlier == AllTaken(closed) && batches == AllPopped(closed) + PoppedBy(b)
  }

  lemma CurrentTaken<C>(b: Book<C>, s: Session<C>)
    requires Current(b, s)
    ensures InStream(s) && b.taken == Stream(s.jobs)[..s.taken] && b.watermark == |Stream(s.jobs)| - s.taken
  {
  }

  lemma RanHands<C>(closed: seq<Book<C>>, b: Book<C>, s: Session<C>, batches: seq<Batch<C>>)
    requires Ran(closed, b, s, batches)
    ensures InStream(s) && HandedIn(s) == AllTaken(closed + [b]) && batches == AllPopped(closed + [b])
  {
    CurrentTaken(b, s);
    OneMoreBook(closed, b);
  }

  lemma EmptyIsCurrent<C>(b: Book<C>, s: Session<C>)
    requires b == Book([], [], [], 0, 0, [], []) && s.jobs == [] && s.taken == 0
    ensures Current(b, s) && PoppedBy(b) == []
  {
    EmptyIsSound(b);
  }

  lemma RanPush<C>(closed: seq<Book<C>>, b: Book<C>, s: Session<C>, batches: seq<Batch<C>>, j: Job<C>)
    requires Ran(closed, b, s, batches) && j.cleanIndex >= s.cleanIndex && Candidates(j) != []
    ensures InStream(s) && Ran(closed, PushBook(b, j), After(s, Push(j)), batches)
  {
    CurrentTaken(b, s);
    PushKeeps(b, j);
    StreamAppend(s.jobs, j);
  }

  lemma RanPop<C>(closed: seq<Book<C>>, b: Book<C>, s: Session<C>, batches: seq<Batch<C>>,
                  c: Book<C>, more: seq<Batch<C>>, m: nat, n: nat)
    requires Ran(closed, b, s, batches) && Sound(c) && SameJobs(b, c)
    requires HandedOver(b, c, more, m) && m == Min(n, b.watermark)
    ensures InStream(s) && Ran(closed, c, After(s, Pop(n)), batches + more)
  {
    CurrentTaken(b, s);
    MatchesPop(b, s, c, more, m, n);
    TakenMore(b, c, more, m);
    Associate(AllPopped(closed), PoppedBy(b), more);
  }

  lemma MatchesPop<C>(b: Book<C>, s: Session<C>, c: Book<C>, more: seq<Batch<C>>, m: nat, n: nat)
    requires Matches(b, s) && InStream(s) && SameJobs(b, c)
    requires HandedOver(b, c, more, m) && m == Min(n, b.watermark)
    requires b.watermark == |Stream(s.jobs)| - s.taken
    ensures Matches(c, After(s, Pop(n)))
  {
    TakenMore(b, c, more, m);
  }

  lemma TakenMore<C>(b: Book<C>, c: Book<C>, more: seq<Batch<C>>, m: nat)
    requires HandedOver(b, c, more, m)
    ensures |c.taken| == |b.taken| + m && PoppedBy(c) == PoppedBy(b) + more
  {
  }

  lemma PopNothing<C>(closed: seq<Book<C>>, b: Book<C>, s: Session<C>, batches: seq<Batch<C>>, n: nat)
    requires Ran(closed, b, s, batches) && b.watermark == 0
    ensures InStream(s) && After(s, Pop(n)) == s
  {
    CurrentTaken(b, s);
  }

  lemma RanClear<C>(closed: seq<Book<C>>, b: Book<C>, s: Session<C>, batches: seq<Batch<C>>,
                    c: Book<C>, index: nat)
    requires Ran(closed, b, s, batches) && c == Book([], [], [], 0, 0, [], [])
    ensures InStream(s) && Ran(closed + [b], c, After(s, Clear(index)), batches)
  {
    RanHands(closed, b, s, batches);
    EmptyIsCurrent(c, After(s, Clear(index)));
    SoundMore(closed, b);
    NothingMore(batches, PoppedBy(c));
  }

  lemma SoundMore<C>(books: seq<Book<C>>, b: Book<C>)
    requires AllSound(books) && Sound(b)
    ensures AllSound(books + [b])
  {
    forall k | 0 <= k < |books + [b]| ensures Sound((books + [b])[k]) {
      assert (books + [b])[k] == if k < |books| then books[k] else b;
    }
  }

  lemma NothingMore<T>(a: seq<T>, b: seq<T>)
    requires b == []
    ensures a + b == a
  {
  }

  /** The queue stands where the run has led. */
  ghost predicate Stands<C>(q: Queue<C>, closed: seq<Book<C>>, s: Session<C>, batches: seq<Batch<C>>)
    reads q
  {
    q.Valid() && q.cleanIndex == s.cleanIndex && InStream(s) && Ran(closed, q.book, s, batches)
  }

  method RunPush<C>(q: Queue<C>, job: Job<C>, ghost closed: seq<Book<C>>, ghost s: Session<C>,
                    ghost batches: seq<Batch<C>>)
    requires Stands(q, closed, s, batches)
    modifies q
    ensures Stands(q, closed, After(s, Push(job)), batches)
  {
    if job.cleanIndex >= q.cleanIndex && Candidates(job) != [] {
      RanPush(closed, q.book, s, batches, job);
    }
    q.Push(job);
  }

  method PopSome<C>(q: Queue<C>, n: nat) returns (batches: seq<Batch<C>>, total: nat)
    requires q.Valid() && n > 0
    modifies q
    ensures q.Valid() && q.cleanIndex == old(q.cleanIndex) && SameJobs(old(q.book), q.book)
    ensures total == Min(n, old(q.book).watermark)
    ensures if total == 0 then old(q.book).watermark == 0 && q.book == old(q.book)
            else HandedOver(old(q.book), q.book, batches, total)
  {
    assert q.book.watermark == q.watermark;
    batches, total := [], 0;
    var r := q.Pop(n);
    if r.Some? {
      batches, total := r.value.batches, r.value.total;
    }
  }

  method RunPop<C>(q: Queue<C>, n: nat, batches0: seq<Batch<C>>, ghost closed: seq<Book<C>>,
                   ghost s: Session<C>)
    returns (batches: seq<Batch<C>>)
    requires Stands(q, closed, s, batches0) && n > 0
    modifies q
    ensures Stands(q, closed, After(s, Pop(n)), batches)
  {
    ghost var before := q.book;
    batches := batches0;
    var more, total := PopSome(q, n);
    if total > 0 {
      batches := batches + more;
      RanPop(closed, before, s, batches0, q.book, more, total, n);
    } else {
      PopNothing(closed, before, s, batches0, n);
    }
  }

  method RunClear<C>(q: Queue<C>, index: nat, ghost batches: seq<Batch<C>>, ghost closed: seq<Book<C>>,
                     ghost s: Session<C>)
    requires Stands(q, closed, s, batches)
    modifies q
    ensures Stands(q, closed + [old(q.book)], After(s, Clear(index)), batches)
  {
    ghost var empty: Book<C> := Book([], [], [], 0, 0, [], []);
    RanClear(closed, q.book, s, batches, empty, index);
    q.Clear(index);
  }

  method RunOne<C>(q: Queue<C>, call: Call<C>, batches0: seq<Batch<C>>, ghost closed0: seq<Book<C>>,
                   ghost s: Session<C>)
    returns (batches: seq<Batch<C>>, ghost closed: seq<Book<C>>)
    requires Stands(q, closed0, s, batches0) && Allowed(call)
    modifies q
    ensures Stands(q, closed, After(s, call), batches)
    ensures closed == if call.Clear? then closed0 + [old(q.book)] else closed0
  {
    batches, closed := batches0, closed0;
    match call
    case Push(job) => RunPush(q, job, closed, s, batches);
    case Pop(n) => batches := RunPop(q, n, batches, closed, s);
    case Clear(index) =>
      closed := closed + [q.book];
      RunClear(q, index, batches, closed0, s);
  }

  /** Every job in this list, and in these books, has been pushed. */
  ghost predicate AllPushed<C>(jobs: seq<Job<C>>, calls: seq<Call<C>>) {
    forall j :: j in jobs ==> Push(j) in calls
  }

  ghost predicate Given<C>(books: seq<Book<C>>, calls: seq<Call<C>>) {
    forall k :: 0 <= k < |books| ==> AllPushed(Jobs(books[k]), calls)
  }

  lemma PushedMore<C>(jobs: seq<Job<C>>, calls: seq<Call<C>>, call: Call<C>)
    requires AllPushed(jobs, calls)
    ensures AllPushed(jobs, calls + [call])
    ensures call.Push? ==> AllPushed(jobs + [call.job], calls + [call])
  {
  }

  lemma OutcomeGiven<C>(calls: seq<Call<C>>, closed: seq<Book<C>>, b: Book<C>, call: Call<C>,
                        closed': seq<Book<C>>)
    requires Given(closed, calls) && Jobs(b) == Outcome(calls).jobs && AllPushed(Jobs(b), calls)
    requires closed' == if call.Clear? then closed + [b] else closed
    ensures Given(closed', calls + [call])
    ensures AllPushed(After(Outcome(calls), call).jobs, calls + [call])
  {
    PushedMore(Jobs(b), calls, call);
    forall k | 0 <= k < |closed'| ensures AllPushed(Jobs(closed'[k]), calls + [call]) {
      if k < |closed| {
        PushedMore(Jobs(closed[k]), calls, call);
      }
    }
  }

  lemma OneMoreCall<C>(calls: seq<Call<C>>, i: nat)
    requires i < |calls|
    ensures Outcome(calls[..i + 1]) == After(Outcome(calls[..i]), calls[i])
    ensures calls[..i + 1] == calls[..i] + [calls[i]]
  {
    assert calls[..i + 1][..i] == calls[..i];
  }

  /** The run has made the first i calls. */
  ghost predicate Along<C>(q: Queue<C>, calls: seq<Call<C>>, i: nat, closed: seq<Book<C>>,
                           batches: seq<Batch<C>>)
    reads q
  {
    && i <= |calls| && Stands(q, closed, Outcome(calls[..i]), batches)
    && Given(closed, calls[..i]) && AllPushed(Outcome(calls[..i]).jobs, calls[..i])
  }

  method RunNext<C>(q: Queue<C>, calls: seq<Call<C>>, i: nat, batches0: seq<Batch<C>>,
                    ghost closed0: seq<Book<C>>)
    returns (batches: seq<Batch<C>>, ghost closed: seq<Book<C>>)
    requires i < |calls| && Along(q, calls, i, closed0, batches0) && Allowed(calls[i])
    modifies q
    ensures Along(q, calls, i + 1, closed, batches)
  {
    ghost var open := q.book;
    OneMoreCall(calls, i);
    batches, closed := RunOne(q, calls[i], batches0, closed0, Outcome(calls[..i]));
    OutcomeGiven(calls[..i], closed0, open, calls[i], closed);
  }

  lemma AlongStart<C>(q: Queue<C>, calls: seq<Call<C>>)
    requires q.Valid() && q.cleanIndex == 0 && q.book == Book([], [], [], 0, 0, [], [])
    ensures Along(q, calls, 0, [], [])
  {
    EmptyIsCurrent(q.book, Outcome<C>([]));
  }

  lemma BooksWithOpen<C>(closed: seq<Book<C>>, b: Book<C>, calls: seq<Call<C>>)
    requires AllSound(closed) && Sound(b) && Given(closed, calls) && AllPushed(Jobs(b), calls)
    ensures AllSound(closed + [b]) && Given(closed + [b], calls)
  {
    SoundMore(closed, b);
    GivenMore(closed, b, calls);
  }

  lemma GivenMore<C>(books: seq<Book<C>>, b: Book<C>, calls: seq<Call<C>>)
    requires Given(books, calls) && AllPushed(Jobs(b), calls)
    ensures Given(books + [b], calls)
  {
    forall k | 0 <= k < |books + [b]| ensures AllPushed(Jobs((books + [b])[k]), calls) {
      assert (books + [b])[k] == if k < |books| then books[k] else b;
    }
  }

  lemma AlongEnd<C>(q: Queue<C>, calls: seq<Call<C>>, closed: seq<Book<C>>, batches: seq<Batch<C>>)
    requires Along(q, calls, |calls|, closed, batches)
    ensures Ran(closed, q.book, Outcome(calls), batches)
    ensures Given(closed, calls) && AllPushed(Jobs(q.book), calls)
  {
    assert calls[..|calls|] == calls;
  }

  lemma RanEnd<C>(calls: seq<Call<C>>, closed: seq<Book<C>>, b: Book<C>, batches: seq<Batch<C>>)
    requires Ran(closed, b, Outcome(calls), batches) && Given(closed, calls) && AllPushed(Jobs(b), calls)
    ensures var books := closed + [b];
            && AllSound(books) && Given(books, calls)
            && batches == AllPopped(books) && HandedIn(Outcome(calls)) == AllTaken(books)
  {
    BooksWithOpen(closed, b, calls);
    RanHands(closed, b, Outcome(calls), batches);
  }

  /** Any run of pushes, pops and clears on a new queue: the books closed by clears, and the one open
      at the end, are all sound, and together they hold the batches popped and their candidates. */
  method Run<C>(calls: seq<Call<C>>) returns (batches: seq<Batch<C>>, ghost books: seq<Book<C>>)
    requires forall i :: 0 <= i < |calls| ==> Allowed(calls[i])
    ensures AllSound(books) && Given(books, calls)
    ensures batches == AllPopped(books) && HandedIn(Outcome(calls)) == AllTaken(books)
  {
    var q := new Queue<C>();
    batches := [];
    ghost var closed: seq<Book<C>> := [];
    AlongStart(q, calls);
    for i := 0 to |calls|
      invariant fresh(q) && Along(q, calls, i, closed, batches)
    {
      batches, closed := RunNext(q, calls, i, batches, closed);
    }
    AlongEnd(q, calls, closed, batches);
    RanEnd(calls, closed, q.book, batches);
    books := closed + [q.book];
  }

  /** The job's candidates are all in its first span. */
  predicate Unwrapped<C>(j: Job<C>) {
    j.second == [] && |j.first| < TWO64
  }

  ghost predicate AllUnwrapped<C>(b: Book<C>) {
    forall j :: j in Jobs(b) ==> Unwrapped(j)
  }

  lemma {:induction false} BooksAreMined<C>(books: seq<Book<C>>)
    requires AllSound(books) && forall k :: 0 <= k < |books| ==> AllUnwrapped(books[k])
    ensures Minable(AllPopped(books)) && VisitedAll(AllPopped(books)) == AllTaken(books)
  {
    if books != [] {
      var init, last := books[..|books| - 1], books[|books| - 1];
      BooksAreMined(init);
      BookIsMined(last);
      VisitedJoin(AllPopped(init), PoppedBy(last));
    }
  }

  lemma BookIsMined<C>(b: Book<C>)
    requires Sound(b) && AllUnwrapped(b)
    ensures Minable(PoppedBy(b)) && VisitedAll(PoppedBy(b)) == b.taken
  {
    forall k | 0 <= k < |Jobs(b)| ensures |Candidates(Jobs(b)[k])| < TWO64 && Jobs(b)[k].second == [] {
      assert Unwrapped(Jobs(b)[k]);
    }
    UnwrappedIsMined(b);
  }

  /** When no job pushed has a second span, mining what a run popped looks at exactly the candidates the
      run's outcome says were popped: from each clear to the next the first of those accepted, as many
      as were popped, each once and in order. */
  method MineRun<C(==)>(calls: seq<Call<C>>) returns (visited: seq<C>)
    requires forall i :: 0 <= i < |calls| ==> Allowed(calls[i])
    requires forall j :: Push(j) in calls ==> Unwrapped(j)
    ensures visited == HandedIn(Outcome(calls))
  {
    var batches, books := Run(calls);
    BooksAreMined(books);
    visited := MineBatches(batches);
  }

  // ---------------------------------------------------------------- what goes wrong otherwise

  /** A job of two candidates in each span. */
  function TwoAndTwo(): Job<int> {
    Job(0, [10, 11], [12, 13])
  }

  /** What mining a batch of it looks at. */
  function MinedOf(offset: nat, len: nat): seq<int>
    requires offset + len <= 4
  {
    if offset < 2 then [10, 11, 12, 13][offset..Min(offset + len, 2)]
    else [10, 11, 12, 13][2..offset + len]
  }

  lemma VisitTwoAndTwo(offset: nat, len: nat)
    requires len > 0 && offset + len <= 4
    ensures Minable([Batch(TwoAndTwo(), offset, len)])
    ensures VisitedAll([Batch(TwoAndTwo(), offset, len)]) == MinedOf(offset, len)
  {
    VisitedOne(Batch(TwoAndTwo(), offset, len));
    VisitClosedForm(2, 2, offset, len);
    assert Candidates(TwoAndTwo()) == [10, 11, 12, 13];
    SelectRange(Candidates(TwoAndTwo()), offset, Min(offset + len, 2));
    SelectRange(Candidates(TwoAndTwo()), 2, offset + len);
  }

  lemma NextOfTwoAndTwo(cursor: nat, n: nat)
    requires n > 0 && cursor + n <= 4
    ensures Fits([TwoAndTwo()], cursor)
    ensures NextBatches([TwoAndTwo()], cursor, n) == [Batch(TwoAndTwo(), cursor, n)]
    ensures AfterNext([TwoAndTwo()], cursor, n)
         == if cursor + n == 4 then ([], 0) else ([TwoAndTwo()], cursor + n)
  {
    assert |Candidates(TwoAndTwo())| == 4 && [TwoAndTwo()][1..] == [];
  }

  ghost predicate Holding(q: Queue<int>, cursor: nat)
    reads q
  {
    q.Valid() && (cursor < 4 ==> q.queue == [TwoAndTwo()] && q.cursor == cursor)
  }

  method PopTwoAndTwo(q: Queue<int>, ghost cursor: nat, n: nat) returns (visited: seq<int>)
    requires n > 0 && cursor + n <= 4 && Holding(q, cursor)
    modifies q
    ensures Holding(q, cursor + n) && visited == MinedOf(cursor, n)
  {
    NextOfTwoAndTwo(cursor, n);
    VisitTwoAndTwo(cursor, n);
    StillPending(q.book);
    var r := q.Pop(n);
    visited := MineBatches(r.value.batches);
  }

  lemma StillPending<C>(b: Book<C>)
    requires Sound(b) && b.queue != []
    ensures b.watermark > 0
  {
  }

  method NewTwoAndTwo() returns (q: Queue<int>)
    ensures fresh(q) && Holding(q, 0)
  {
    q := new Queue<int>();
    q.Push(TwoAndTwo());
  }

  function MinedOfAll(offset: nat, lens: seq<nat>): seq<int>
    requires offset + Total(lens) <= 4
    decreases |lens|
  {
    if lens == [] then [] else MinedOf(offset, lens[0]) + MinedOfAll(offset + lens[0], lens[1..])
  }

  lemma MinedFirst(offset: nat, lens: seq<nat>)
    requires lens != [] && Positive(lens) && offset + lens[0] + Total(lens[1..]) <= 4
    ensures lens[0] > 0 && Positive(lens[1..]) && Total(lens) == lens[0] + Total(lens[1..])
    ensures MinedOfAll(offset, lens) == MinedOf(offset, lens[0]) + MinedOfAll(offset + lens[0], lens[1..])
  {
  }

  /** Pops of these sizes, and mining what they hand out. */
  method PopInTurn(q: Queue<int>, ghost cursor: nat, lens: seq<nat>) returns (visited: seq<int>)
    requires Positive(lens) && cursor + Total(lens) <= 4 && Holding(q, cursor)
    modifies q
    ensures visited == MinedOfAll(cursor, lens)
    decreases |lens|
  {
    if lens == [] {
      return [];
    }
    MinedFirst(cursor, lens);
    visited := PopTwoAndTwo(q, cursor, lens[0]);
    var more := PopInTurn(q, cursor + lens[0], lens[1..]);
    visited := visited + more;
  }

  /** A batch that straddles the spans: the second span's candidates are handed out and not mined. */
  method StraddlingBatchLoses() returns (visited: seq<int>)
    ensures visited == [10, 11]
  {
    var q := NewTwoAndTwo();
    visited := PopInTurn(q, 0, [4]);
  }

  lemma MinedTooOften(lens: seq<nat>)
    requires lens == [2, 1, 1]
    ensures Positive(lens) && Total(lens) == 4 && MinedOfAll(0, lens) == [10, 11, 12, 12, 13]
  {
    assert lens[1..] == [1, 1] && [1, 1][1..] == [1] && [1][1..] == [];
    MinedFirst(3, [1]);
    MinedFirst(2, [1, 1]);
    MinedFirst(0, lens);
  }

  /** Two batches that start in the second span: the later one mines its first candidate again. */
  method LateBatchRepeats() returns (visited: seq<int>)
    ensures visited == [10, 11, 12, 12, 13]
  {
    var lens := [2, 1, 1];
    MinedTooOften(lens);
    var q := NewTwoAndTwo();
    visited := PopInTurn(q, 0, lens);
  }

  /** `mine_proportion`, with the product taken in 64 bits. */
  function Proportion(hashrate: Option<nat>, watermark: nat): Double {
    if hashrate == None then Number(1.0)
    else
      var a, b := (watermark * 10) % TWO64, hashrate.value;
      if b > a then Number(1.0)
      else if a == 0 then NaN
      else Number(b as real / a as real)
  }

  lemma ProperFraction(b: real, a: real, q: real)
    requires 0.0 < b <= a && q * a == b
    ensures 0.0 < q <= 1.0
  {
    if q > 1.0 {
      assert (q - 1.0) * a > 0.0;
    }
  }

  /** `scaled_threshold` asserts that the proportion is in (0, 1]; that is so except when the
      hashrate has been set to 0. */
  lemma ProportionIff(hashrate: Option<nat>, watermark: nat)
    ensures var p := Proportion(hashrate, watermark);
            (p.Number? && 0.0 < p.x <= 1.0) <==> hashrate != Some(0)
  {
    if hashrate.Some? {
      var a, b := (watermark * 10) % TWO64, hashrate.value;
      if 0 < b <= a {
        ProperFraction(b as real, a as real, b as real / a as real);
      }
    }
  }

  /** The proportion of ten times the pending candidates is the hashrate, or all of them if the hashrate is
      higher; without a hashrate it is 1. */
  lemma ProportionOfTenfold(hashrate: nat, watermark: nat, tenfold: nat)
    requires tenfold == 10 * watermark % 0x1_0000_0000_0000_0000 && tenfold > 0
    ensures var p := Proportion(Some(hashrate), watermark);
            && p.Number? && p.x * tenfold as real == (if hashrate < tenfold then hashrate else tenfold) as real
            && Proportion(None, watermark) == Number(1.0)
  {
    if hashrate <= tenfold {
      Quotient(hashrate as real, tenfold as real);
    }
  }

  lemma Quotient(b: real, a: real)
    requires a > 0.0
    ensures b / a * a == b
  {
  }

  /** Both ways to leave it: 0/0 on an empty queue, 0 on any other. */
  lemma ProportionOfNothing(watermark: nat)
    requires 0 < watermark * 10 < TWO64
    ensures Proportion(Some(0), 0) == NaN && Proportion(Some(0), watermark) == Number(0.0)
  {
  }
}
