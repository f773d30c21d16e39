/** The job protocol of afl-cmin: one dispatcher feeds a FIFO queue with batches
    and then one `None` per worker; workers take jobs, report one progress
    message per file and send their result on `None`; `main` collects. */
module CminQueue {

  import opened Arithmetic

  datatype Job = Batch(files: seq<nat>) | Stop

  /** A worker waits for a job, is inside a batch, or has sent its result.
      `done` lists the files it has traced. */
  datatype Worker =
    | Waiting(done: seq<nat>)
    | Tracing(batch: seq<nat>, k: nat, done: seq<nat>)
    | Finished(done: seq<nat>)

  /** `sent` progress messages and results were put, `seen` of them collected. */
  datatype State = State(
    toSend: seq<Job>, queue: seq<Job>, workers: seq<Worker>,
    sentProgress: nat, seenProgress: nat, seenResults: nat)

  // ----- what is where: how often file `x` occurs, or all files when `x` is negative

  ghost function Hits(files: seq<nat>, x: int): nat {
    if files == [] then 0 else (if x < 0 || files[0] == x then 1 else 0) + Hits(files[1..], x)
  }

  ghost function Queued(jobs: seq<Job>, x: int): nat {
    if jobs == [] then 0 else (if jobs[0].Batch? then Hits(jobs[0].files, x) else 0) + Queued(jobs[1..], x)
  }

  ghost function Stops(jobs: seq<Job>): nat {
    if jobs == [] then 0 else (if jobs[0].Stop? then 1 else 0) + Stops(jobs[1..])
  }

  /** What is left of the batch a worker is in. */
  ghost function Held(w: Worker, x: int): nat {
    if w.Tracing? && w.k <= |w.batch| then Hits(w.batch[w.k..], x) else 0
  }

  ghost function HeldBy(ws: seq<Worker>, x: int): nat {
    if ws == [] then 0 else Held(ws[0], x) + HeldBy(ws[1..], x)
  }

  ghost function DoneBy(ws: seq<Worker>, x: int): nat {
    if ws == [] then 0 else Hits(ws[0].done, x) + DoneBy(ws[1..], x)
  }

  ghost function FinishedCount(ws: seq<Worker>): nat {
    if ws == [] then 0 else (if ws[0].Finished? then 1 else 0) + FinishedCount(ws[1..])
  }

  // ----- the steps

  ghost predicate Init(s: State, batches: seq<Job>, nworkers: nat) {
    && (forall b :: b in batches ==> b.Batch?)
    && s == State(batches + seq(nworkers, _ => Stop), [], seq(nworkers, _ => Waiting([])), 0, 0, 0)
  }

  ghost predicate Send(s: State, s': State) {
    s.toSend != [] && s' == s.(toSend := s.toSend[1..], queue := s.queue + [s.toSend[0]])
  }

  ghost predicate Get(s: State, s': State, w: nat) {
    && w < |s.workers| && s.workers[w].Waiting? && s.queue != []
    && var next := if s.queue[0].Batch? then Tracing(s.queue[0].files, 0, s.workers[w].done)
                   else Finished(s.workers[w].done);
       s' == s.(queue := s.queue[1..], workers := s.workers[w := next])
  }

  ghost predicate Trace(s: State, s': State, w: nat) {
    && w < |s.workers| && s.workers[w].Tracing? && s.workers[w].k < |s.workers[w].batch|
    && var me := s.workers[w];
       s' == s.(workers := s.workers[w := Tracing(me.batch, me.k + 1, me.done + [me.batch[me.k]])],
                sentProgress := s.sentProgress + 1)
  }

  ghost predicate EndBatch(s: State, s': State, w: nat) {
    && w < |s.workers| && s.workers[w].Tracing? && s.workers[w].k >= |s.workers[w].batch|
    && s' == s.(workers := s.workers[w := Waiting(s.workers[w].done)])
  }

  /** `main` reads `n` progress messages, waits for the dispatcher, then reads one
      result per worker. */
  ghost predicate SeeProgress(s: State, s': State, n: nat) {
    s.seenProgress < n && s.seenProgress < s.sentProgress && s' == s.(seenProgress := s.seenProgress + 1)
  }

  ghost predicate SeeResult(s: State, s': State, n: nat) {
    && s.seenProgress == n && s.toSend == [] && s.seenResults < FinishedCount(s.workers)
    && s' == s.(seenResults := s.seenResults + 1)
  }

  ghost predicate Step(s: State, s': State, n: nat) {
    || Send(s, s')
    || (exists w: nat :: Get(s, s', w))
    || (exists w: nat :: Trace(s, s', w))
    || (exists w: nat :: EndBatch(s, s', w))
    || SeeProgress(s, s', n)
    || SeeResult(s, s', n)
  }

  /** All jobs consumed, all workers finished, everything collected. */
  ghost predicate Final(s: State, n: nat) {
    && s.toSend == [] && s.queue == []
    && (forall w :: 0 <= w < |s.workers| ==> s.workers[w].Finished?)
    && s.seenProgress == s.sentProgress == n && s.seenResults == |s.workers|
  }

  // ----- the invariant

  ghost predicate Conserved(s: State, batches: seq<Job>, x: int) {
    Queued(s.queue + s.toSend, x) + HeldBy(s.workers, x) + DoneBy(s.workers, x) == Queued(batches, x)
  }

  /** Every file is queued, held or done as often as it was to begin with; there
      is one `None` left per unfinished worker, and one is the last job. */
  ghost predicate Inv(s: State, batches: seq<Job>, nworkers: nat) {
    && |s.workers| == nworkers
    && (forall x :: Conserved(s, batches, x))
    && Stops(s.queue + s.toSend) + FinishedCount(s.workers) == nworkers
    && (s.queue + s.toSend != [] ==> (s.queue + s.toSend)[|s.queue + s.toSend| - 1].Stop?)
    && s.sentProgress == DoneBy(s.workers, -1)
    && s.seenProgress <= s.sentProgress
    && s.seenResults <= FinishedCount(s.workers)
  }

  lemma {:induction false} HitsSnoc(files: seq<nat>, y: nat, x: int)
    ensures Hits(files + [y], x) == Hits(files, x) + (if x < 0 || y == x then 1 else 0)
    decreases |files|
  {
    if files == [] {
    } else {
      HitsSnoc(files[1..], y, x);
      assert (files + [y])[1..] == files[1..] + [y];
    }
  }

  /** Replacing one worker changes the sums by that worker's share. */
  lemma {:induction false} UpdateCounts(ws: seq<Worker>, w: nat, y: Worker, x: int)
    requires w < |ws|
    ensures HeldBy(ws[w := y], x) == HeldBy(ws, x) - Held(ws[w], x) + Held(y, x)
    ensures DoneBy(ws[w := y], x) == DoneBy(ws, x) - Hits(ws[w].done, x) + Hits(y.done, x)
    decreases |ws|
  {
    if w == 0 {
      assert ws[w := y][1..] == ws[1..];
    } else {
      UpdateCounts(ws[1..], w - 1, y, x);
      assert ws[w := y][1..] == ws[1..][w - 1 := y];
    }
  }

  lemma {:induction false} UpdateFinished(ws: seq<Worker>, w: nat, y: Worker)
    requires w < |ws|
    ensures FinishedCount(ws[w := y]) ==
            FinishedCount(ws) - (if ws[w].Finished? then 1 else 0) + (if y.Finished? then 1 else 0)
    decreases |ws|
  {
    if w == 0 {
      assert ws[w := y][1..] == ws[1..];
    } else {
      UpdateFinished(ws[1..], w - 1, y);
      assert ws[w := y][1..] == ws[1..][w - 1 := y];
    }
  }

  lemma {:induction false} InitialWorkers(n: nat, x: int)
    ensures var ws := seq(n, _ => Waiting([]));
            HeldBy(ws, x) == 0 && DoneBy(ws, x) == 0 && FinishedCount(ws) == 0
  {
    if n == 0 {
    } else {
      InitialWorkers(n - 1, x);
      assert seq(n, _ => Waiting([]))[1..] == seq(n - 1, _ => Waiting([]));
    }
  }

  lemma {:induction false} InitialJobs(batches: seq<Job>, n: nat, x: int)
    requires forall b :: b in batches ==> b.Batch?
    ensures Stops(batches + seq(n, _ => Stop)) == n && Queued(batches + seq(n, _ => Stop), x) == Queued(batches, x)
    decreases |batches|, n
  {
    var jobs := batches + seq(n, _ => Stop);
    if batches != [] {
      assert batches[0] in batches;
      assert forall b :: b in batches[1..] ==> b in batches;
      InitialJobs(batches[1..], n, x);
      assert jobs[1..] == batches[1..] + seq(n, _ => Stop);
    } else if n > 0 {
      InitialJobs([], n - 1, x);
      assert jobs[1..] == [] + seq(n - 1, _ => Stop);
    }
  }

  lemma InitInv(s: State, batches: seq<Job>, nworkers: nat)
    requires Init(s, batches, nworkers) && nworkers > 0
    ensures Inv(s, batches, nworkers)
  {
    hide Queued, HeldBy, DoneBy, Stops, FinishedCount, Conserved;
    assert s.queue + s.toSend == s.toSend;
    InitialWorkers(nworkers, -1);
    InitialJobs(batches, nworkers, -1);
    forall x ensures Conserved(s, batches, x) { InitConserved(s, batches, nworkers, x); }
  }

  lemma InitConserved(s: State, batches: seq<Job>, nworkers: nat, x: int)
    requires Init(s, batches, nworkers)
    ensures Conserved(s, batches, x)
  {
    hide Queued, HeldBy, DoneBy;
    assert s.queue + s.toSend == s.toSend;
    InitialWorkers(nworkers, x);
    InitialJobs(batches, nworkers, x);
  }

  // ----- every step keeps it

  lemma SendKeepsInv(s: State, s': State, batches: seq<Job>, n: nat)
    requires Inv(s, batches, n) && Send(s, s')
    ensures Inv(s', batches, n)
  {
    assert s'.queue + s'.toSend == s.queue + s.toSend;
    forall x ensures Conserved(s', batches, x) { assert Conserved(s, batches, x); }
  }

  lemma GetKeepsInv(s: State, s': State, w: nat, batches: seq<Job>, n: nat)
    requires Inv(s, batches, n) && Get(s, s', w)
    ensures Inv(s', batches, n)
  {
    hide HeldBy, DoneBy, FinishedCount;
    var jobs := s.queue + s.toSend;
    assert s'.queue + s'.toSend == jobs[1..] && jobs[0] == s.queue[0];
    UpdateFinished(s.workers, w, s'.workers[w]);
    UpdateCounts(s.workers, w, s'.workers[w], -1);
    forall x ensures Conserved(s', batches, x) {
      assert Conserved(s, batches, x);
      UpdateCounts(s.workers, w, s'.workers[w], x);
      if jobs[0].Batch? { assert jobs[0].files[0..] == jobs[0].files; }
    }
  }

  lemma TraceKeepsInv(s: State, s': State, w: nat, batches: seq<Job>, n: nat)
    requires Inv(s, batches, n) && Trace(s, s', w)
    ensures Inv(s', batches, n)
  {
    hide HeldBy, DoneBy, FinishedCount, Queued, Stops;
    var me := s.workers[w];
    UpdateFinished(s.workers, w, s'.workers[w]);
    UpdateCounts(s.workers, w, s'.workers[w], -1);
    HitsSnoc(me.done, me.batch[me.k], -1);
    forall x ensures Conserved(s', batches, x) {
      assert Conserved(s, batches, x);
      UpdateCounts(s.workers, w, s'.workers[w], x);
      HitsSnoc(me.done, me.batch[me.k], x);
      assert me.batch[me.k..][1..] == me.batch[me.k + 1..];
    }
  }

  lemma EndBatchKeepsInv(s: State, s': State, w: nat, batches: seq<Job>, n: nat)
    requires Inv(s, batches, n) && EndBatch(s, s', w)
    ensures Inv(s', batches, n)
  {
    hide HeldBy, DoneBy, FinishedCount, Queued, Stops;
    UpdateFinished(s.workers, w, s'.workers[w]);
    UpdateCounts(s.workers, w, s'.workers[w], -1);
    forall x ensures Conserved(s', batches, x) {
      assert Conserved(s, batches, x);
      UpdateCounts(s.workers, w, s'.workers[w], x);
    }
  }

  lemma SeeKeepsInv(s: State, s': State, batches: seq<Job>, n: nat, total: nat)
    requires Inv(s, batches, n) && (SeeProgress(s, s', total) || SeeResult(s, s', total))
    ensures Inv(s', batches, n)
  {
    hide HeldBy, DoneBy, Queued, Stops;
    forall x ensures Conserved(s', batches, x) { assert Conserved(s, batches, x); }
  }

  lemma StepKeepsInv(s: State, s': State, batches: seq<Job>, n: nat, total: nat)
    requires Inv(s, batches, n) && Step(s, s', total)
    ensures Inv(s', batches, n)
  {
    hide Inv, Send, Get, Trace, EndBatch;
    if Send(s, s') {
      SendKeepsInv(s, s', batches, n);
    } else if w: nat :| Get(s, s', w) {
      GetKeepsInv(s, s', w, batches, n);
    } else if w: nat :| Trace(s, s', w) {
      TraceKeepsInv(s, s', w, batches, n);
    } else if w: nat :| EndBatch(s, s', w) {
      EndBatchKeepsInv(s, s', w, batches, n);
    } else {
      SeeKeepsInv(s, s', batches, n, total);
    }
  }

  // ----- whole runs

  /** Any interleaving of the processes, from the start. */
  ghost predicate Run(run: seq<State>, batches: seq<Job>, nworkers: nat) {
    && run != [] && Init(run[0], batches, nworkers) && nworkers > 0
    && forall i :: 0 <= i < |run| - 1 ==> Step(run[i], run[i + 1], Queued(batches, -1))
  }

  lemma {:induction false} RunKeepsInv(run: seq<State>, batches: seq<Job>, nworkers: nat, i: nat)
    requires Run(run, batches, nworkers) && i < |run|
    ensures Inv(run[i], batches, nworkers)
    decreases i
  {
    hide Inv, Step, Init;
    if i == 0 {
      InitInv(run[0], batches, nworkers);
    } else {
      RunKeepsInv(run, batches, nworkers, i - 1);
      assert Step(run[i - 1], run[i - 1 + 1], Queued(batches, -1));
      StepKeepsInv(run[i - 1], run[i], batches, nworkers, Queued(batches, -1));
    }
  }

  // ----- no run is stuck, and every run ends

  lemma {:induction false} SomeUnfinished(ws: seq<Worker>) returns (w: nat)
    requires FinishedCount(ws) != |ws|
    ensures FinishedCount(ws) < |ws| && w < |ws| && !ws[w].Finished?
    decreases |ws|
  {
    AtMostAll(ws);
    if !ws[0].Finished? { w := 0; } else { var v := SomeUnfinished(ws[1..]); w := v + 1; }
  }

  lemma {:induction false} AtMostAll(ws: seq<Worker>)
    ensures FinishedCount(ws) <= |ws|
    ensures FinishedCount(ws) == |ws| ==> forall w :: 0 <= w < |ws| ==> ws[w].Finished?
    decreases |ws|
  {
    if ws == [] {
    } else {
      AtMostAll(ws[1..]);
      assert forall w :: 0 < w < |ws| ==> ws[w] == ws[1..][w - 1];
    }
  }

  lemma {:induction false} LastStopCounts(jobs: seq<Job>)
    requires jobs != [] && jobs[|jobs| - 1].Stop?
    ensures Stops(jobs) > 0
    decreases |jobs|
  {
    if |jobs| <= 1 {
    } else {
      LastStopCounts(jobs[1..]);
    }
  }

  lemma {:induction false} FinishedHoldNothing(ws: seq<Worker>, x: int)
    requires forall w :: 0 <= w < |ws| ==> ws[w].Finished?
    ensures HeldBy(ws, x) == 0
    decreases |ws|
  {
    if ws == [] {
    } else {
      FinishedHoldNothing(ws[1..], x);
    }
  }

  /** Some process can move in every reachable state that is not final. */
  lemma NeverStuck(s: State, batches: seq<Job>, nworkers: nat) returns (s': State)
    requires Inv(s, batches, nworkers) && !Final(s, Queued(batches, -1))
    ensures Step(s, s', Queued(batches, -1))
  {
    hide Conserved, Queued;
    var n := Queued(batches, -1);
    if s.toSend != [] {
      s' := s.(toSend := s.toSend[1..], queue := s.queue + [s.toSend[0]]);
      assert Send(s, s');
    } else if FinishedCount(s.workers) != |s.workers| {
      var w := SomeUnfinished(s.workers);
      s' := WorkerMoves(s, w);
    } else {
      AtMostAll(s.workers);
      assert s.queue + s.toSend == s.queue;
      if s.queue != [] { LastStopCounts(s.queue); }
      AllDoneAtEnd(s, batches, nworkers, -1);
      if s.seenProgress < n {
        s' := s.(seenProgress := s.seenProgress + 1);
        assert SeeProgress(s, s', n);
      } else {
        s' := s.(seenResults := s.seenResults + 1);
        assert SeeResult(s, s', n);
      }
    }
  }

  lemma WorkerMoves(s: State, w: nat) returns (s': State)
    requires s.toSend == [] && Stops(s.queue + s.toSend) > 0
    requires w < |s.workers| && !s.workers[w].Finished?
    ensures Get(s, s', w) || Trace(s, s', w) || EndBatch(s, s', w)
  {
    assert s.queue != [];
    var me := s.workers[w];
    if me.Waiting? {
      var next := if s.queue[0].Batch? then Tracing(s.queue[0].files, 0, me.done) else Finished(me.done);
      s' := s.(queue := s.queue[1..], workers := s.workers[w := next]);
    } else if me.k < |me.batch| {
      s' := s.(workers := s.workers[w := Tracing(me.batch, me.k + 1, me.done + [me.batch[me.k]])],
               sentProgress := s.sentProgress + 1);
    } else {
      s' := s.(workers := s.workers[w := Waiting(me.done)]);
    }
  }

  lemma AllDoneAtEnd(s: State, batches: seq<Job>, nworkers: nat, x: int)
    requires Inv(s, batches, nworkers) && s.queue == [] && s.toSend == []
    requires forall w :: 0 <= w < |s.workers| ==> s.workers[w].Finished?
    ensures DoneBy(s.workers, x) == Queued(batches, x)
  {
    assert Conserved(s, batches, x);
    FinishedHoldNothing(s.workers, x);
  }

  /** In a final state every file was traced exactly as often as it was
      dispatched, and exactly that many progress messages were collected. */
  lemma FinalIsExact(run: seq<State>, batches: seq<Job>, nworkers: nat)
    requires Run(run, batches, nworkers) && Final(run[|run| - 1], Queued(batches, -1))
    ensures forall x :: DoneBy(run[|run| - 1].workers, x) == Queued(batches, x)
    ensures run[|run| - 1].seenProgress == Queued(batches, -1)
  {
    hide Inv, Init, Step, DoneBy, Queued;
    var s := run[|run| - 1];
    RunKeepsInv(run, batches, nworkers, |run| - 1);
    forall x ensures DoneBy(s.workers, x) == Queued(batches, x) { AllDoneAtEnd(s, batches, nworkers, x); }
  }

  // ----- a measure that every step lowers

  ghost function JobWork(jobs: seq<Job>): nat {
    if jobs == [] then 0 else (if jobs[0].Batch? then |jobs[0].files| + 2 else 1) + JobWork(jobs[1..])
  }

  ghost function WorkerWork(ws: seq<Worker>): nat {
    if ws == [] then 0 else MyWork(ws[0]) + WorkerWork(ws[1..])
  }

  ghost function MyWork(w: Worker): nat {
    if w.Tracing? then 1 + (if w.k < |w.batch| then |w.batch| - w.k else 0) else 0
  }

  ghost function Measure(s: State, n: nat, nworkers: nat): int {
    JobWork(s.toSend) + |s.toSend| + JobWork(s.queue) + WorkerWork(s.workers)
    + (n - s.seenProgress) + (nworkers - s.seenResults)
  }

  lemma {:induction false} JobWorkSnoc(jobs: seq<Job>, j: Job)
    ensures JobWork(jobs + [j]) == JobWork(jobs) + JobWork([j])
    decreases |jobs|
  {
    if jobs == [] {
    } else {
      JobWorkSnoc(jobs[1..], j);
      assert (jobs + [j])[1..] == jobs[1..] + [j];
    }
  }

  lemma {:induction false} UpdateWork(ws: seq<Worker>, w: nat, y: Worker)
    requires w < |ws|
    ensures WorkerWork(ws[w := y]) == WorkerWork(ws) - MyWork(ws[w]) + MyWork(y)
    decreases |ws|
  {
    if w == 0 {
      assert ws[w := y][1..] == ws[1..];
    } else {
      UpdateWork(ws[1..], w - 1, y);
      assert ws[w := y][1..] == ws[1..][w - 1 := y];
    }
  }

  lemma StepLowersMeasure(s: State, s': State, n: nat, nworkers: nat)
    requires Step(s, s', n)
    ensures Measure(s', n, nworkers) == Measure(s, n, nworkers) - 1
  {
    hide WorkerWork;
    if Send(s, s') {
      JobWorkSnoc(s.queue, s.toSend[0]);
    } else if w: nat :| Get(s, s', w) {
      UpdateWork(s.workers, w, s'.workers[w]);
    } else if w: nat :| Trace(s, s', w) {
      UpdateWork(s.workers, w, s'.workers[w]);
    } else if w: nat :| EndBatch(s, s', w) {
      UpdateWork(s.workers, w, s'.workers[w]);
    }
  }

  /** No run is longer than its first state's measure: with `NeverStuck`, every
      schedule runs to a final state. */
  lemma {:induction false} RunsEnd(run: seq<State>, batches: seq<Job>, nworkers: nat, i: nat)
    requires Run(run, batches, nworkers) && i < |run|
    ensures Measure(run[i], Queued(batches, -1), nworkers) == Measure(run[0], Queued(batches, -1), nworkers) - i
    ensures Measure(run[i], Queued(batches, -1), nworkers) >= 0
    decreases i
  {
    hide Inv, Step, Init, Measure;
    var n := Queued(batches, -1);
    RunKeepsInv(run, batches, nworkers, i);
    MeasureIsBounded(run[i], batches, nworkers);
    if i == 0 {
    } else {
      RunsEnd(run, batches, nworkers, i - 1);
      assert Step(run[i - 1], run[i - 1 + 1], n);
      StepLowersMeasure(run[i - 1], run[i], n, nworkers);
    }
  }

  lemma MeasureIsBounded(s: State, batches: seq<Job>, nworkers: nat)
    requires Inv(s, batches, nworkers)
    ensures Measure(s, Queued(batches, -1), nworkers) >= 0
  {
    assert Conserved(s, batches, -1);
    AtMostAll(s.workers);
  }

  // ----- how `main` cuts the files into batches

  /** `batched(enumerate(files), chunk)` over the file indices `from .. n`. */
  function Batches(from: nat, n: nat, chunk: nat): (jobs: seq<Job>)
    requires chunk > 0 && from <= n
    decreases n - from
  {
    if from == n then []
    else
      var to := if from + chunk < n then from + chunk else n;
      [Batch(seq(to - from, i requires 0 <= i < to - from => from + i))] + Batches(to, n, chunk)
  }

  lemma {:induction false} RangeHits(from: nat, len: nat, x: int)
    ensures Hits(seq(len, i requires 0 <= i < len => from + i), x)
         == if x < 0 then len else if from <= x < from + len then 1 else 0
    decreases len
  {
    if len == 0 {
    } else {
      RangeHits(from + 1, len - 1, x);
      assert seq(len, i requires 0 <= i < len => from + i)[1..]
          == seq(len - 1, i requires 0 <= i < len - 1 => from + 1 + i);
    }
  }

  /** Each index is in exactly one batch. */
  lemma {:induction false} BatchesAreAPartition(from: nat, n: nat, chunk: nat, x: int)
    requires chunk > 0 && from <= n
    ensures forall b :: b in Batches(from, n, chunk) ==> b.Batch? && 0 < |b.files| <= chunk
    ensures Queued(Batches(from, n, chunk), x) == if x < 0 then n - from else if from <= x < n then 1 else 0
    decreases n - from
  {
    if from < n {
      var to := if from + chunk < n then from + chunk else n;
      BatchesAreAPartition(to, n, chunk, x);
      RangeHits(from, to - from, x);
      assert Batches(from, n, chunk)[1..] == Batches(to, n, chunk);
    }
  }

  /** The batches are full but for the last, and take the files in order. */
  lemma {:induction false} BatchAt(from: nat, n: nat, chunk: nat, k: nat, i: nat)
    requires chunk > 0 && from <= n && k < |Batches(from, n, chunk)|
    requires Batches(from, n, chunk)[k].Batch? && i < |Batches(from, n, chunk)[k].files|
    ensures Batches(from, n, chunk)[k].files[i] == from + chunk * k + i
    ensures k < |Batches(from, n, chunk)| - 1 ==> |Batches(from, n, chunk)[k].files| == chunk
    decreases k
  {
    var to := if from + chunk < n then from + chunk else n;
    assert Batches(from, n, chunk)[1..] == Batches(to, n, chunk);
    if k == 0 {
    } else {
      BatchAt(to, n, chunk, k - 1, i);
      MulStep(chunk, k);
    }
  }

  /** `main`'s chunk size. */
  function Chunk(nfiles: nat, nworkers: nat): (c: nat)
    requires nworkers > 0
    ensures 1 <= c <= 128
  {
    var per := nfiles / nworkers;
    if per < 1 then 1 else if per > 128 then 128 else per
  }

  /** It is the largest, from 1 to 128, of which every worker can have a full batch. */
  lemma ChunkIsLargest(nfiles: nat, nworkers: nat, c: nat)
    requires nworkers > 0 && 1 < c <= 128
    ensures c * nworkers <= nfiles <==> c <= Chunk(nfiles, nworkers)
  {
    var per := nfiles / nworkers;
    if c <= per {
      ProductGrows(c, per, nworkers);
    } else {
      ProductGrows(per + 1, c, nworkers);
    }
  }

  lemma ProductGrows(a: nat, b: nat, n: nat)
    requires a <= b
    ensures a * n <= b * n
  {
  }

  /** For any number of workers and any interleaving, a finished run has traced
      each of the `nfiles` files exactly once and sent `nfiles` messages. */
  lemma EveryFileTracedOnce(run: seq<State>, nfiles: nat, nworkers: nat, x: nat)
    requires nworkers > 0 && Run(run, Batches(0, nfiles, Chunk(nfiles, nworkers)), nworkers)
    requires Final(run[|run| - 1], nfiles)
    ensures DoneBy(run[|run| - 1].workers, x) == (if x < nfiles then 1 else 0)
    ensures run[|run| - 1].sentProgress == nfiles
  {
    hide Run, DoneBy, Queued, Chunk;
    var batches := Batches(0, nfiles, Chunk(nfiles, nworkers));
    BatchesAreAPartition(0, nfiles, Chunk(nfiles, nworkers), -1);
    BatchesAreAPartition(0, nfiles, Chunk(nfiles, nworkers), x);
    FinalIsExact(run, batches, nworkers);
  }
}
