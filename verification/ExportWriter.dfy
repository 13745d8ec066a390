/**
 The export writer as a protocol: one worker and one slot, through which jobs are handed to
 the file system and results are handed back, interleaved at every lock region.
 */
module ExportWriter {
  datatype Job = Job(revision: nat, path: string, contents: string, scope: string)

  datatype Status = Ok | Conflict | Error

  datatype Result = Result(revision: nat, status: Status, path: string, scope: string)

  datatype Worker = Checking | Sleeping | Writing(job: Job) | Storing(job: Job, status: Status) | Gone

  // What became of one attempt to write.
  datatype Write = Write(job: Job, status: Status)

  const EMPTY := Job(0, "", "", "")

  datatype State = State(
    job: Job, result: Result, stopping: bool, pending: bool, working: bool, published: bool,
    worker: Worker, toNotify: nat,
    // History: the jobs accepted, the writes tried, and the results taken.
    accepted: seq<Job>, writes: seq<Write>, taken: seq<Result>)

  datatype Step =
    | Submit(job: Job) | Notify | Take
    | Check | WakeSpuriously | WriteFile(status: Status) | Store
    | Stop

  const START := State(EMPTY, Result(0, Error, "", ""), false, false, false, false, Checking, 0, [], [], [])

  // What submit asks of a job, whatever the state of the writer.
  predicate Fits(job: Job) {
    |job.path| <= 32768 && |job.contents| <= 2 * 1024 * 1024 && |job.scope| <= 4096 && job.revision != 0
  }

  predicate Free(s: State) {
    !s.stopping && !s.pending && !s.working && !s.published
  }

  predicate Enabled(s: State, step: Step) {
    match step
    case Submit(job) => true
    case Notify => s.toNotify > 0
    case Take => true
    case Check => s.worker == Checking
    case WakeSpuriously => s.worker == Sleeping
    case WriteFile(_) => s.worker.Writing?
    case Store => s.worker.Storing?
    case Stop => !s.stopping
  }

  // submit, once it has the lock: the state, whether the job was accepted, and what the
  // caller has left of it.
  function Submitted(s: State, job: Job): (r: (State, bool, Job)) {
    if !Fits(job) || !Free(s) then (s, false, job)
    else (s.(job := job, pending := true, toNotify := s.toNotify + 1, accepted := s.accepted + [job]), true, EMPTY)
  }

  function Taken(s: State): (r: (State, bool)) {
    if !s.published then (s, false)
    else (s.(published := false, taken := s.taken + [s.result]), true)
  }

  // The wait of the worker, from testing its condition on.
  function Checked(s: State): (next: State) {
    if s.pending then s.(worker := Writing(s.job), job := EMPTY, pending := false, working := true)
    else if s.stopping then s.(worker := Gone)
    else s.(worker := Sleeping)
  }

  function ResultOf(w: Write): (result: Result) {
    Result(w.job.revision, w.status, w.job.path, w.job.scope)
  }

  function Apply(s: State, step: Step): (next: State)
    requires Enabled(s, step)
  {
    match step
    case Submit(job) => Submitted(s, job).0
    case Notify => s.(toNotify := s.toNotify - 1, worker := if s.worker == Sleeping then Checking else s.worker)
    case Take => Taken(s).0
    case Check => Checked(s)
    case WakeSpuriously => s.(worker := Checking)
    case WriteFile(status) =>
      s.(worker := Storing(s.worker.job, status), writes := s.writes + [Write(s.worker.job, status)])
    case Store =>
      s.(worker := Checking, result := ResultOf(Write(s.worker.job, s.worker.status)), published := true,
         working := false)
    case Stop => s.(stopping := true, toNotify := s.toNotify + 1)
  }

  ghost predicate Runs(steps: seq<Step>, start: State, end: State) {
    if steps == [] then start == end
    else Enabled(start, steps[0]) && Runs(steps[1..], Apply(start, steps[0]), end)
  }

  ghost predicate Reachable(s: State) {
    exists steps :: Runs(steps, START, s)
  }

  // ----- The invariant ----------------------------------------------------------------

  function JobsOf(writes: seq<Write>): (jobs: seq<Job>)
    ensures |jobs| == |writes|
  {
    seq(|writes|, k requires 0 <= k < |writes| => writes[k].job)
  }

  function ResultsOf(writes: seq<Write>): (results: seq<Result>)
    ensures |results| == |writes|
  {
    seq(|writes|, k requires 0 <= k < |writes| => ResultOf(writes[k]))
  }

  // The one job or result in the writer is at one place.
  ghost predicate OnePlace(s: State) {
    && !(s.pending && s.working) && !(s.pending && s.published) && !(s.working && s.published)
    && s.working == (s.worker.Writing? || s.worker.Storing?)
    && (s.worker.Writing? ==> Fits(s.worker.job))
    && (s.pending ==> Fits(s.job))
  }

  // Accepted jobs are written in order, each once, and the last is still to come.
  ghost predicate WrittenInOrder(s: State) {
    s.accepted == JobsOf(s.writes) + (if s.worker.Writing? then [s.worker.job] else []) +
                  (if s.pending then [s.job] else [])
  }

  // Results are taken in order, each once, and the last is still to come.
  ghost predicate TakenInOrder(s: State) {
    ResultsOf(s.writes) == s.taken + (if s.published then [s.result] else []) +
      (if s.worker.Storing? then [ResultOf(Write(s.worker.job, s.worker.status))] else [])
  }

  ghost predicate Wakes(s: State) {
    && (s.worker == Sleeping && (s.pending || s.stopping) ==> s.toNotify > 0)
    && (s.worker == Gone ==> s.stopping && !s.pending)
  }

  ghost predicate Inv(s: State) {
    OnePlace(s) && WrittenInOrder(s) && TakenInOrder(s) && Wakes(s)
  }

  lemma StepKeepsInv(s: State, step: Step)
    requires Inv(s) && Enabled(s, step)
    ensures Inv(Apply(s, step))
  {
    KeepsWritten(s, step);
    KeepsTaken(s, step);
  }

  lemma KeepsWritten(s: State, step: Step)
    requires WrittenInOrder(s) && OnePlace(s) && Enabled(s, step)
    ensures WrittenInOrder(Apply(s, step))
  {
    if step.WriteFile? {
      assert JobsOf(s.writes + [Write(s.worker.job, step.status)]) == JobsOf(s.writes) + [s.worker.job];
    }
  }

  lemma KeepsTaken(s: State, step: Step)
    requires TakenInOrder(s) && OnePlace(s) && Enabled(s, step)
    ensures TakenInOrder(Apply(s, step))
  {
    if step.WriteFile? {
      var w := Write(s.worker.job, step.status);
      assert ResultsOf(s.writes + [w]) == ResultsOf(s.writes) + [ResultOf(w)];
    }
  }

  lemma {:induction false} RunsKeepInv(steps: seq<Step>, start: State, end: State)
    requires Inv(start) && Runs(steps, start, end)
    ensures Inv(end)
    decreases |steps|
  {
    if steps != [] {
      StepKeepsInv(start, steps[0]);
      RunsKeepInv(steps[1..], Apply(start, steps[0]), end);
    }
  }

  lemma ReachableInv(s: State)
    requires Reachable(s)
    ensures Inv(s)
  {
    var steps :| Runs(steps, START, s);
    RunsKeepInv(steps, START, s);
  }

  // ----- What the invariant means -----------------------------------------------------

  // In every run the writer holds one thing at most: a job pending, one being written, or
  // a result to be taken.
  lemma HoldsOneThing(s: State)
    requires Reachable(s)
    ensures (if s.pending then 1 else 0) + (if s.working then 1 else 0) + (if s.published then 1 else 0) <= 1
    ensures |s.accepted| - |s.taken| == if s.pending || s.working || s.published then 1 else 0
  {
    ReachableInv(s);
    assert |ResultsOf(s.writes)| == |JobsOf(s.writes)|;
  }

  // Every write is that of an accepted job, in the order of acceptance and once each; and
  // every result taken is that of such a write, in the same order and once each.
  lemma EachOnceInOrder(s: State)
    requires Reachable(s)
    ensures JobsOf(s.writes) <= s.accepted && |s.accepted| <= |s.writes| + 1
    ensures s.taken <= ResultsOf(s.writes) && |s.writes| <= |s.taken| + 1
    ensures forall k :: 0 <= k < |s.taken| ==>
              && s.taken[k].revision == s.accepted[k].revision && s.taken[k].status == s.writes[k].status
              && s.taken[k].path == s.accepted[k].path && s.taken[k].scope == s.accepted[k].scope
  {
    ReachableInv(s);
    forall k | 0 <= k < |s.taken|
      ensures s.taken[k] == ResultOf(s.writes[k]) && s.writes[k].job == s.accepted[k]
    {
      assert ResultsOf(s.writes)[k] == s.taken[k];
      assert JobsOf(s.writes)[k] == s.accepted[k];
    }
  }

  // take answers exactly when a result is there, and hands over that of the first write whose
  // result has not been taken.
  lemma TakesNextResult(s: State)
    requires Reachable(s)
    ensures !Taken(s).1 ==> Taken(s).0 == s
    ensures Taken(s).1 <==> |s.taken| < |s.writes| && !s.worker.Storing?
    ensures Taken(s).1 ==> Taken(s).0.taken == s.taken + [ResultOf(s.writes[|s.taken|])] && !Taken(s).0.published
  {
    ReachableInv(s);
    assert |ResultsOf(s.writes)| == |s.writes|;
    if s.published {
      assert ResultsOf(s.writes) == s.taken + [s.result];
      assert ResultsOf(s.writes)[|s.taken|] == s.result;
    }
  }

  // A job is accepted exactly when it fits and the writer holds nothing, and then its
  // contents move into the writer; a refusal changes neither the writer nor the job.
  lemma AcceptedOrUntouched(s: State, job: Job)
    requires Reachable(s)
    ensures Submitted(s, job).1 <==>
            && |job.path| <= 0x8000 && |job.contents| <= 0x20_0000 && |job.scope| <= 0x1000 && job.revision > 0
            && !s.stopping && |s.accepted| == |s.taken|
    ensures !Submitted(s, job).1 ==> Submitted(s, job) == (s, false, job)
    ensures Submitted(s, job).1 ==>
              Submitted(s, job).0.accepted == s.accepted + [job] && Submitted(s, job).2 == Job(0, "", "", "")
  {
    HoldsOneThing(s);
    ReachableInv(s);
  }

  // ----- The writer always comes to rest ----------------------------------------------

  ghost predicate AtRest(s: State) {
    && !Enabled(s, Check) && !Enabled(s, Store) && !Enabled(s, Notify)
    && forall status :: !Enabled(s, WriteFile(status))
  }

  predicate Internal(step: Step) {
    step.Check? || step.Store? || step.Notify? || step.WriteFile?
  }

  function Weight(w: Worker): (n: nat) {
    match w
    case Checking => 1
    case Sleeping => 0
    case Writing(_) => 3
    case Storing(_, _) => 2
    case Gone => 0
  }

  function Remaining(s: State): (n: nat) {
    Weight(s.worker) + 2 * s.toNotify + (if s.pending then 3 else 0)
  }

  lemma InternalStepsRunOut(s: State, step: Step)
    requires Internal(step) && Enabled(s, step)
    ensures Remaining(Apply(s, step)) < Remaining(s)
  {
  }

  // When the worker has no step left, every accepted job has been written, also after the
  // writer was told to stop; and then the worker is gone.
  lemma RestMeansWritten(s: State)
    requires Reachable(s) && AtRest(s)
    ensures JobsOf(s.writes) == s.accepted && (s.stopping ==> s.worker == Gone)
  {
    ReachableInv(s);
    assert !Enabled(s, WriteFile(Ok));
    assert JobsOf(s.writes) + [] + [] == JobsOf(s.writes);
  }

  lemma {:induction false} StopLasts(steps: seq<Step>, start: State, end: State)
    requires Runs(steps, start, end)
    ensures end.stopping <==> start.stopping || Stop in steps
    decreases |steps|
  {
    if steps != [] {
      StopLasts(steps[1..], Apply(start, steps[0]), end);
      assert steps == [steps[0]] + steps[1..];
    }
  }

  // So it ends after every run in which the writer was told to stop, and only then.
  lemma StopEnds(steps: seq<Step>, s: State)
    requires Runs(steps, START, s) && AtRest(s)
    ensures s.worker == Gone <==> Stop in steps
  {
    StopLasts(steps, START, s);
    assert Reachable(s);
    RestMeansWritten(s);
    ReachableInv(s);
  }

  lemma GoneMeansWritten(s: State)
    requires Reachable(s) && s.worker == Gone
    ensures JobsOf(s.writes) == s.accepted
  {
    ReachableInv(s);
    assert JobsOf(s.writes) + [] + [] == JobsOf(s.writes);
  }

  // A whole run: a job is handed in, written, and its result taken; and then the writer is told
  // to stop. These are the states on the way.
  const ONE := Job(1, "path", "contents", "scope")
  const NOTHING := Result(0, Error, "", "")
  const DONE := Result(1, Ok, "path", "scope")
  const TAKEN := State(EMPTY, NOTHING, false, false, true, false, Writing(ONE), 1, [ONE], [], [])
  const STORED := State(EMPTY, DONE, false, false, false, true, Checking, 1, [ONE], [Write(ONE, Ok)], [])
  const FETCHED := State(EMPTY, DONE, false, false, false, false, Checking, 0, [ONE], [Write(ONE, Ok)], [DONE])
  const STOPPED := State(EMPTY, DONE, true, false, false, false, Sleeping, 1, [ONE], [Write(ONE, Ok)], [DONE])
  const ENDED := State(EMPTY, DONE, true, false, false, false, Gone, 0, [ONE], [Write(ONE, Ok)], [DONE])

  lemma WholeRunHappens() returns (steps: seq<Step>)
    ensures Runs(steps, START, ENDED)
  {
    TakenNext();
    steps := [Submit(ONE), Check];
    StoredNext();
    RunsJoin(steps, [WriteFile(Ok), Store], START, TAKEN, STORED);
    steps := steps + [WriteFile(Ok), Store];
    FetchedNext();
    RunsJoin(steps, [Take, Notify], START, STORED, FETCHED);
    steps := steps + [Take, Notify];
    StoppedNext();
    RunsJoin(steps, [Check, Stop], START, FETCHED, STOPPED);
    steps := steps + [Check, Stop];
    EndedNext();
    RunsJoin(steps, [Notify, Check], START, STOPPED, ENDED);
    steps := steps + [Notify, Check];
  }

  lemma TakenNext()
    ensures Runs([Submit(ONE), Check], START, TAKEN)
  {
    var s1 := Apply(START, Submit(ONE));
    var s2 := Apply(s1, Check);
    assert s2 == TAKEN && Runs([], TAKEN, TAKEN);
    RunsCons(s1, Check, [], TAKEN);
    RunsCons(START, Submit(ONE), [Check], TAKEN);
  }

  lemma StoredNext()
    ensures Runs([WriteFile(Ok), Store], TAKEN, STORED)
  {
    var s1 := Apply(TAKEN, WriteFile(Ok));
    var s2 := Apply(s1, Store);
    assert s2 == STORED && Runs([], STORED, STORED);
    RunsCons(s1, Store, [], STORED);
    RunsCons(TAKEN, WriteFile(Ok), [Store], STORED);
  }

  lemma FetchedNext()
    ensures Runs([Take, Notify], STORED, FETCHED)
  {
    var s1 := Apply(STORED, Take);
    var s2 := Apply(s1, Notify);
    assert s2 == FETCHED && Runs([], FETCHED, FETCHED);
    RunsCons(s1, Notify, [], FETCHED);
    RunsCons(STORED, Take, [Notify], FETCHED);
  }

  lemma StoppedNext()
    ensures Runs([Check, Stop], FETCHED, STOPPED)
  {
    var s1 := Apply(FETCHED, Check);
    var s2 := Apply(s1, Stop);
    assert s2 == STOPPED && Runs([], STOPPED, STOPPED);
    RunsCons(s1, Stop, [], STOPPED);
    RunsCons(FETCHED, Check, [Stop], STOPPED);
  }

  lemma EndedNext()
    ensures Runs([Notify, Check], STOPPED, ENDED)
  {
    var s1 := Apply(STOPPED, Notify);
    var s2 := Apply(s1, Check);
    assert s2 == ENDED && Runs([], ENDED, ENDED);
    RunsCons(s1, Check, [], ENDED);
    RunsCons(STOPPED, Notify, [Check], ENDED);
  }

  lemma RunsCons(s: State, step: Step, steps: seq<Step>, end: State)
    requires Enabled(s, step) && Runs(steps, Apply(s, step), end)
    ensures Runs([step] + steps, s, end)
  {
    assert ([step] + steps)[1..] == steps;
  }

  lemma {:induction false} RunsJoin(a: seq<Step>, b: seq<Step>, start: State, mid: State, end: State)
    requires Runs(a, start, mid) && Runs(b, mid, end)
    ensures Runs(a + b, start, end)
    decreases |a|
  {
    if a == [] {
      assert a + b == b;
    } else {
      assert (a + b)[1..] == a[1..] + b;
      RunsJoin(a[1..], b, Apply(start, a[0]), mid, end);
    }
  }
}
