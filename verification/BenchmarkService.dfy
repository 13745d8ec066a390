/**
 The benchmark service as a protocol: one worker, any number of threads that start, cancel
 and wait, interleaved at every lock region, flag access, notification and post.
 */
module BenchmarkService {
  datatype Job = Job(plan: seq<nat>, progress: bool, result: bool, finish: bool, run: nat)

  // What a run posts to the application.
  datatype Post =
    | Progress(run: nat, completed: nat, total: nat, current: nat)
    | Result(run: nat, kernel: nat)
    | Finish(run: nat, cancelled: bool)

  datatype Worker =
    | Checking | Sleeping | Gone
    | Testing(job: Job, completed: nat)
    | Announcing(job: Job, completed: nat)
    | Measuring(job: Job, completed: nat)
    | Judging(job: Job, completed: nat)
    | Reporting(job: Job, completed: nat)
    | Counting(job: Job, completed: nat)
    | Ending(job: Job, completed: nat, announced: bool, cancelled: bool)
    | Clearing
    | Notifying

  datatype Caller = Asking | Blocked | Released

  datatype Teardown = Up | Cancelling | WakingWorker | WakingCallers | Joining

  // A run that has posted its end; `clean` says that the flag was down when the run was
  // accepted, and nobody has asked to cancel since.
  datatype Done = Done(job: Job, completed: nat, announced: bool, cancelled: bool, clean: bool)

  datatype State = State(
    pending: seq<Job>, running: bool, stopping: bool, cancelled: bool,
    worker: Worker, callers: seq<Caller>, teardown: Teardown,
    // Starters that have yet to clear the flag, and to notify the worker.
    toClear: nat, toNotify: nat,
    // History: all posts, the runs accepted and done, and whether the latest is clean.
    posts: seq<Post>, accepted: seq<Job>, done: seq<Done>, clean: bool)

  datatype Step =
    | Start(plan: seq<nat>, progress: bool, result: bool, finish: bool) | Clear | Notify | Cancel
    | Check | WakeSpuriously | Test | Announce | Measure | Judge | Report | Count | End | Release | NotifyIdle
    | Ask | CheckIdle(caller: nat) | WakeCallerSpuriously(caller: nat)
    | Stop | StopCancel | WakeWorker | WakeCallers

  const START := State([], false, false, false, Checking, [], Up, 0, 0, [], [], [], false)

  predicate Enabled(s: State, step: Step) {
    match step
    case Start(plan, _, _, _) => plan != [] && !s.stopping && !s.running && s.pending == []
    case Clear => s.toClear > 0
    case Notify => s.toNotify > 0
    case Cancel => true
    case Check => s.worker == Checking
    case WakeSpuriously => s.worker == Sleeping
    case Test => s.worker.Testing? && s.worker.completed <= |s.worker.job.plan|
    case Announce => s.worker.Announcing? && s.worker.completed < |s.worker.job.plan|
    case Measure => s.worker.Measuring?
    case Judge => s.worker.Judging?
    case Report => s.worker.Reporting? && 0 < s.worker.completed <= |s.worker.job.plan|
    case Count => s.worker.Counting? && 0 < s.worker.completed <= |s.worker.job.plan|
    case End => s.worker.Ending?
    case Release => s.worker == Clearing
    case NotifyIdle => s.worker == Notifying
    case Ask => true
    case CheckIdle(k) => k < |s.callers| && s.callers[k] == Asking
    case WakeCallerSpuriously(k) => k < |s.callers| && s.callers[k] == Blocked
    case Stop => s.teardown == Up
    case StopCancel => s.teardown == Cancelling
    case WakeWorker => s.teardown == WakingWorker
    case WakeCallers => s.teardown == WakingCallers
  }

  function WakeAllCallers(callers: seq<Caller>): (woken: seq<Caller>)
    ensures |woken| == |callers|
  {
    seq(|callers|, k requires 0 <= k < |callers| => if callers[k] == Blocked then Asking else callers[k])
  }

  function Awoken(worker: Worker): (woken: Worker) {
    if worker == Sleeping then Checking else worker
  }

  // The wait of the worker, from testing its condition on.
  function Checked(s: State): (next: State) {
    if s.stopping then s.(worker := Gone)
    else if s.pending == [] then s.(worker := Sleeping)
    else s.(worker := Testing(s.pending[0], 0), pending := [])
  }

  // The head of the loop over the plan.
  function Tested(s: State): (next: State)
    requires s.worker.Testing?
  {
    var job, completed := s.worker.job, s.worker.completed;
    if completed >= |job.plan| then s.(worker := Ending(job, completed, false, false))
    else if s.cancelled then s.(worker := Ending(job, completed, false, true))
    else s.(worker := Announcing(job, completed))
  }

  function Judged(s: State): (next: State)
    requires s.worker.Judging?
  {
    var job, completed := s.worker.job, s.worker.completed;
    s.(worker := if s.cancelled then Ending(job, completed, true, true) else Reporting(job, completed + 1))
  }

  // The progress message while a kernel is current.
  function ProgressPost(job: Job, completed: nat, kernel: nat): (posts: seq<Post>) {
    if job.progress then [Progress(job.run, completed, |job.plan|, kernel)] else []
  }

  function ResultPost(job: Job, kernel: nat): (posts: seq<Post>) {
    if job.result then [Result(job.run, kernel)] else []
  }

  function FinishPost(job: Job, cancelled: bool): (posts: seq<Post>) {
    if job.finish then [Finish(job.run, cancelled)] else []
  }

  function Apply(s: State, step: Step): (next: State)
    requires Enabled(s, step)
  {
    match step
    case Start(plan, progress, result, finish) =>
      var job := Job(plan, progress, result, finish, |s.accepted|);
      s.(pending := [job], running := true, toClear := s.toClear + 1, accepted := s.accepted + [job],
         clean := !s.cancelled)
    case Clear => s.(cancelled := false, toClear := s.toClear - 1, toNotify := s.toNotify + 1)
    case Notify => s.(toNotify := s.toNotify - 1, worker := Awoken(s.worker))
    case Cancel => s.(cancelled := true, clean := false)
    case Check => Checked(s)
    case WakeSpuriously => s.(worker := Checking)
    case Test => Tested(s)
    case Announce =>
      var job, completed := s.worker.job, s.worker.completed;
      s.(worker := Measuring(job, completed), posts := s.posts + ProgressPost(job, completed, job.plan[completed]))
    case Measure => s.(worker := Judging(s.worker.job, s.worker.completed))
    case Judge => Judged(s)
    case Report =>
      var job, completed := s.worker.job, s.worker.completed;
      s.(worker := Counting(job, completed), posts := s.posts + ResultPost(job, job.plan[completed - 1]))
    case Count =>
      var job, completed := s.worker.job, s.worker.completed;
      s.(worker := Testing(job, completed), posts := s.posts + ProgressPost(job, completed, job.plan[completed - 1]))
    case End =>
      var w := s.worker;
      s.(worker := Clearing, posts := s.posts + FinishPost(w.job, w.cancelled),
         done := s.done + [Done(w.job, w.completed, w.announced, w.cancelled, s.clean)])
    case Release => s.(worker := Notifying, running := false)
    case NotifyIdle => s.(worker := Checking, callers := WakeAllCallers(s.callers))
    case Ask => s.(callers := s.callers + [Asking])
    case CheckIdle(k) => s.(callers := s.callers[k := if s.stopping || !s.running then Released else Blocked])
    case WakeCallerSpuriously(k) => s.(callers := s.callers[k := Asking])
    case Stop => s.(stopping := true, teardown := Cancelling)
    case StopCancel => s.(cancelled := true, clean := false, teardown := WakingWorker)
    case WakeWorker => s.(worker := Awoken(s.worker), teardown := WakingCallers)
    case WakeCallers => s.(callers := WakeAllCallers(s.callers), teardown := Joining)
  }

  ghost predicate Runs(steps: seq<Step>, start: State, end: State) {
    if steps == [] then start == end
    else Enabled(start, steps[0]) && Runs(steps[1..], Apply(start, steps[0]), end)
  }

  // ----- What a run posts -------------------------------------------------------------

  // The posts about the first n kernels of a plan.
  function Body(job: Job, n: nat): (posts: seq<Post>)
    requires n <= |job.plan|
  {
    if n == 0 then []
    else
      Body(job, n - 1) + ProgressPost(job, n - 1, job.plan[n - 1]) + ResultPost(job, job.plan[n - 1]) +
      ProgressPost(job, n, job.plan[n - 1])
  }

  // All posts of a run that has come to its end.
  function Posted(d: Done): (posts: seq<Post>)
    requires d.completed <= |d.job.plan| && (d.announced ==> d.completed < |d.job.plan|)
  {
    Body(d.job, d.completed) +
    (if d.announced then ProgressPost(d.job, d.completed, d.job.plan[d.completed]) else []) +
    FinishPost(d.job, d.cancelled)
  }

  predicate Sensible(d: Done) {
    && d.completed <= |d.job.plan| && (d.announced ==> d.completed < |d.job.plan|)
    && (!d.cancelled ==> d.completed == |d.job.plan| && !d.announced)
    && (d.clean ==> !d.cancelled)
  }

  ghost predicate AllSensible(done: seq<Done>) {
    forall k :: 0 <= k < |done| ==> Sensible(done[k])
  }

  // The posts of runs, one after the other.
  function AllPosted(done: seq<Done>): (posts: seq<Post>)
    requires AllSensible(done)
  {
    if done == [] then [] else AllPosted(done[..|done| - 1]) + Posted(done[|done| - 1])
  }

  predicate Busy(w: Worker) {
    w.Testing? || w.Announcing? || w.Measuring? || w.Judging? || w.Reporting? || w.Counting? || w.Ending?
  }

  predicate InPlan(w: Worker)
    requires Busy(w)
  {
    match w
    case Testing(job, n) => n <= |job.plan|
    case Announcing(job, n) => n < |job.plan|
    case Measuring(job, n) => n < |job.plan|
    case Judging(job, n) => n < |job.plan|
    case Reporting(job, n) => 0 < n <= |job.plan|
    case Counting(job, n) => 0 < n <= |job.plan|
    case Ending(job, n, announced, cancelled) => Sensible(Done(job, n, announced, cancelled, false))
  }

  // What the run in progress has posted.
  function Partial(w: Worker): (posts: seq<Post>)
    requires Busy(w) && InPlan(w)
  {
    match w
    case Testing(job, n) => Body(job, n)
    case Announcing(job, n) => Body(job, n)
    case Measuring(job, n) => Body(job, n) + ProgressPost(job, n, job.plan[n])
    case Judging(job, n) => Body(job, n) + ProgressPost(job, n, job.plan[n])
    case Reporting(job, n) => Body(job, n - 1) + ProgressPost(job, n - 1, job.plan[n - 1])
    case Counting(job, n) =>
      Body(job, n - 1) + ProgressPost(job, n - 1, job.plan[n - 1]) + ResultPost(job, job.plan[n - 1])
    case Ending(job, n, announced, _) =>
      Body(job, n) + (if announced then ProgressPost(job, n, job.plan[n]) else [])
  }

  function Jobs(done: seq<Done>): (jobs: seq<Job>)
    ensures |jobs| == |done|
  {
    seq(|done|, k requires 0 <= k < |done| => done[k].job)
  }

  // ----- The invariant ----------------------------------------------------------------

  // One run at a time: accepted runs are done, in progress or pending, in that order.
  ghost predicate OneAtATime(s: State) {
    && s.accepted == Jobs(s.done) + (if Busy(s.worker) then [s.worker.job] else []) + s.pending
    && (s.running <==> s.pending != [] || Busy(s.worker) || s.worker == Clearing)
    && (s.pending != [] ==> |s.pending| == 1 && !Busy(s.worker) && s.worker != Clearing)
    && forall k :: 0 <= k < |s.accepted| ==> s.accepted[k].run == k
  }

  // The posts are those of the runs done, one after the other, and of the one in progress.
  ghost predicate PostsInOrder(s: State) {
    && AllSensible(s.done) && (Busy(s.worker) ==> InPlan(s.worker))
    && s.posts == AllPosted(s.done) + (if Busy(s.worker) then Partial(s.worker) else [])
  }

  // A clean run has not seen the flag up.
  ghost predicate CleanIsClear(s: State) {
    s.clean ==> !s.cancelled && (s.worker.Ending? ==> !s.worker.cancelled)
  }

  ghost predicate Wakes(s: State) {
    && (s.worker == Sleeping && s.pending != [] && !s.stopping ==> s.toClear + s.toNotify > 0)
    && s.stopping == (s.teardown != Up)
    && (s.teardown == WakingCallers || s.teardown == Joining ==> s.worker != Sleeping)
    && (s.worker == Gone ==> s.stopping)
  }

  ghost predicate NoneBlocked(callers: seq<Caller>) {
    forall k :: 0 <= k < |callers| ==> callers[k] != Blocked
  }

  ghost predicate Releases(s: State) {
    && (!s.running && !s.stopping && s.worker != Notifying ==> NoneBlocked(s.callers))
    && (s.teardown == Joining ==> NoneBlocked(s.callers))
  }

  ghost predicate Inv(s: State) {
    OneAtATime(s) && PostsInOrder(s) && CleanIsClear(s) && Wakes(s) && Releases(s)
  }

  lemma KeepsOneAtATime(s: State, step: Step)
    requires OneAtATime(s) && Enabled(s, step)
    ensures OneAtATime(Apply(s, step))
  {
    if step.End? {
      var d := Done(s.worker.job, s.worker.completed, s.worker.announced, s.worker.cancelled, s.clean);
      assert Jobs(s.done + [d]) == Jobs(s.done) + [d.job];
    } else if step.Start? {
      assert Jobs(s.done) + [] + [] == Jobs(s.done);
    } else {
      assert Apply(s, step).accepted == s.accepted && Apply(s, step).done == s.done;
    }
  }

  lemma KeepsPostsInOrder(s: State, step: Step)
    requires PostsInOrder(s) && CleanIsClear(s) && Enabled(s, step)
    ensures PostsInOrder(Apply(s, step))
  {
    if step.End? {
      EndPostsInOrder(s, step);
    } else if step.Announce? || step.Report? || step.Count? {
      PartialGrows(s.worker, Apply(s, step).worker);
      Appended(AllPosted(s.done), Partial(s.worker), NewPosts(s.worker));
    } else {
      SilentStep(s, step);
    }
  }

  // What the worker has posted about a run that has not ended.
  function Unfinished(w: Worker): (posts: seq<Post>)
    requires Busy(w) ==> InPlan(w)
  {
    if Busy(w) then Partial(w) else []
  }

  // The other steps post nothing.
  lemma SilentStep(s: State, step: Step)
    requires PostsInOrder(s) && Enabled(s, step)
    requires !step.End? && !step.Announce? && !step.Report? && !step.Count?
    ensures PostsInOrder(Apply(s, step))
  {
    SilentWorker(s, step);
  }

  lemma SilentWorker(s: State, step: Step)
    requires Enabled(s, step) && !step.End? && !step.Announce? && !step.Report? && !step.Count?
    requires Busy(s.worker) ==> InPlan(s.worker)
    ensures var next := Apply(s, step);
            && next.posts == s.posts && next.done == s.done
            && (Busy(next.worker) ==> InPlan(next.worker)) && Unfinished(next.worker) == Unfinished(s.worker)
  {
    if step.Judge? {
      JudgedPartial(s.worker, Apply(s, step).worker);
    } else if step.Test? {
      TestedPartial(s.worker, Apply(s, step).worker);
    }
  }

  lemma TestedPartial(w: Worker, next: Worker)
    requires w.Testing? && InPlan(w)
    requires || (next == Ending(w.job, w.completed, false, false) && w.completed == |w.job.plan|)
             || (w.completed < |w.job.plan| &&
                 (next == Ending(w.job, w.completed, false, true) || next == Announcing(w.job, w.completed)))
    ensures InPlan(next) && Partial(next) == Partial(w)
  {
  }

  lemma JudgedPartial(w: Worker, next: Worker)
    requires w.Judging? && InPlan(w)
    requires next == Ending(w.job, w.completed, true, true) || next == Reporting(w.job, w.completed + 1)
    ensures InPlan(next) && Partial(next) == Partial(w)
  {
  }

  lemma Appended(all: seq<Post>, partial: seq<Post>, more: seq<Post>)
    ensures (all + partial) + more == all + (partial + more)
  {
  }

  // What a run in progress posts next, in its posting steps.
  function NewPosts(w: Worker): (posts: seq<Post>)
    requires Busy(w) && InPlan(w)
  {
    match w
    case Announcing(job, n) => ProgressPost(job, n, job.plan[n])
    case Reporting(job, n) => ResultPost(job, job.plan[n - 1])
    case Counting(job, n) => ProgressPost(job, n, job.plan[n - 1])
    case _ => []
  }

  lemma PartialGrows(w: Worker, next: Worker)
    requires Busy(w) && InPlan(w)
    requires match w
             case Announcing(job, n) => next == Measuring(job, n)
             case Reporting(job, n) => next == Counting(job, n)
             case Counting(job, n) => next == Testing(job, n)
             case _ => false
    ensures Partial(next) == Partial(w) + NewPosts(w)
  {
  }

  lemma EndPostsInOrder(s: State, step: Step)
    requires PostsInOrder(s) && CleanIsClear(s) && Enabled(s, step) && step.End?
    ensures PostsInOrder(Apply(s, step))
  {
    var d := Done(s.worker.job, s.worker.completed, s.worker.announced, s.worker.cancelled, s.clean);
    assert (s.done + [d])[..|s.done|] == s.done;
    assert Posted(d) == Partial(s.worker) + FinishPost(d.job, d.cancelled);
    Appended(AllPosted(s.done), Partial(s.worker), FinishPost(d.job, d.cancelled));
  }

  lemma KeepsCleanIsClear(s: State, step: Step)
    requires CleanIsClear(s) && OneAtATime(s) && Enabled(s, step)
    ensures CleanIsClear(Apply(s, step))
  {
  }

  lemma KeepsWakes(s: State, step: Step)
    requires Wakes(s) && Enabled(s, step)
    ensures Wakes(Apply(s, step))
  {
  }

  lemma KeepsReleases(s: State, step: Step)
    requires Releases(s) && OneAtATime(s) && Wakes(s) && Enabled(s, step)
    ensures Releases(Apply(s, step))
  {
  }

  lemma StepKeepsInv(s: State, step: Step)
    requires Inv(s) && Enabled(s, step)
    ensures Inv(Apply(s, step))
  {
    KeepsOneAtATime(s, step);
    KeepsPostsInOrder(s, step);
    KeepsCleanIsClear(s, step);
    KeepsWakes(s, step);
    KeepsReleases(s, step);
  }

  lemma {:induction false} RunsKeepInv(steps: seq<Step>, start: State, end: State)
    requires Inv(start) && Runs(steps, start, end)
    ensures Inv(end)
    decreases |steps|
  {
    if steps != [] {
      StepKeepsInv(start, steps[0]);
      RunsKeepInv(steps[1..], Apply(start, steps[0]), end);
    }
  }

  ghost predicate Reachable(s: State) {
    exists steps :: Runs(steps, START, s)
  }

  lemma ReachableInv(s: State)
    requires Reachable(s)
    ensures Inv(s)
  {
    var steps :| Runs(steps, START, s);
    RunsKeepInv(steps, START, s);
  }

  // ----- What the invariant means -----------------------------------------------------

  // The posts are always those of whole runs, one after the other, and of one in progress:
  // runs never overlap, and they come in the order they were accepted.
  lemma RunsNeverOverlap(s: State)
    requires Reachable(s)
    ensures AllSensible(s.done) && (Busy(s.worker) ==> InPlan(s.worker))
    ensures s.posts == AllPosted(s.done) + (if Busy(s.worker) then Partial(s.worker) else [])
    ensures |s.done| <= |s.accepted|
    ensures forall k :: 0 <= k < |s.done| ==> s.done[k].job == s.accepted[k] && s.accepted[k].run == k
  {
    ReachableInv(s);
    forall k | 0 <= k < |s.done| ensures s.done[k].job == s.accepted[k] {
      assert Jobs(s.done)[k] == s.accepted[k];
    }
  }

  // The kernels a list of posts reports results for.
  function Kernels(posts: seq<Post>): (kernels: seq<nat>) {
    if posts == [] then []
    else Kernels(posts[..|posts| - 1]) +
         (if posts[|posts| - 1].Result? then [posts[|posts| - 1].kernel] else [])
  }

  lemma {:induction false} KernelsConcat(a: seq<Post>, b: seq<Post>)
    ensures Kernels(a + b) == Kernels(a) + Kernels(b)
  {
    if b == [] {
      assert a + b == a;
    } else {
      assert (a + b)[..|a + b| - 1] == a + b[..|b| - 1];
      KernelsConcat(a, b[..|b| - 1]);
    }
  }

  // What one kernel of a run posts.
  function About(job: Job, n: nat): (posts: seq<Post>)
    requires 0 < n <= |job.plan|
  {
    ProgressPost(job, n - 1, job.plan[n - 1]) + ResultPost(job, job.plan[n - 1]) + ProgressPost(job, n, job.plan[n - 1])
  }

  lemma BodyStep(job: Job, n: nat)
    requires 0 < n <= |job.plan|
    ensures Body(job, n) == Body(job, n - 1) + About(job, n)
  {
  }

  lemma AboutResults(job: Job, n: nat)
    requires 0 < n <= |job.plan| && job.result
    ensures Kernels(About(job, n)) == [job.plan[n - 1]]
  {
    var p := job.plan[n - 1];
    KernelsConcat(ProgressPost(job, n - 1, p) + ResultPost(job, p), ProgressPost(job, n, p));
    KernelsConcat(ProgressPost(job, n - 1, p), ResultPost(job, p));
  }

  lemma OneMoreKernel(all: seq<Post>, before: seq<Post>, about: seq<Post>, plan: seq<nat>, n: nat)
    requires 0 < n <= |plan| && all == before + about
    requires Kernels(before) == plan[..n - 1] && Kernels(about) == [plan[n - 1]]
    ensures Kernels(all) == plan[..n]
  {
    KernelsConcat(before, about);
    assert plan[..n] == plan[..n - 1] + [plan[n - 1]];
  }

  // Posts that are no results do not count.
  lemma NoMoreKernels(all: seq<Post>, before: seq<Post>, rest: seq<Post>)
    requires all == before + rest && forall k :: 0 <= k < |rest| ==> !rest[k].Result?
    ensures Kernels(all) == Kernels(before)
  {
    KernelsConcat(before, rest);
    NoKernels(rest);
  }

  lemma {:induction false} BodyResults(job: Job, n: nat)
    requires n <= |job.plan| && job.result
    ensures Kernels(Body(job, n)) == job.plan[..n]
  {
    if n > 0 {
      BodyResults(job, n - 1);
      BodyStep(job, n);
      AboutResults(job, n);
      OneMoreKernel(Body(job, n), Body(job, n - 1), About(job, n), job.plan, n);
    }
  }

  // The results of a run are those of a prefix of its plan, in order; of all of it when
  // the run says that it was not cancelled.
  lemma ResultsFollowPlan(d: Done)
    requires Sensible(d) && d.job.result
    ensures Kernels(Posted(d)) == d.job.plan[..d.completed]
    ensures !d.cancelled ==> Kernels(Posted(d)) == d.job.plan
  {
    var body, finish := Body(d.job, d.completed), FinishPost(d.job, d.cancelled);
    var last := if d.announced then ProgressPost(d.job, d.completed, d.job.plan[d.completed]) else [];
    Appended(body, last, finish);
    NoMoreKernels(Posted(d), body, last + finish);
    BodyResults(d.job, d.completed);
  }

  lemma {:induction false} NoKernels(posts: seq<Post>)
    requires forall k :: 0 <= k < |posts| ==> !posts[k].Result?
    ensures Kernels(posts) == []
  {
    if posts != [] {
      NoKernels(posts[..|posts| - 1]);
    }
  }

  // How many results a run in progress has posted.
  function ResultsOf(w: Worker): (n: nat)
    requires Busy(w) && InPlan(w)
    ensures n <= |w.job.plan|
  {
    if w.Reporting? then w.completed - 1 else w.completed
  }

  // And so at every moment of a run in progress.
  lemma ResultsSoFar(w: Worker)
    requires Busy(w) && InPlan(w) && w.job.result
    ensures Kernels(Partial(w)) == w.job.plan[..ResultsOf(w)]
  {
    var job, n := w.job, w.completed;
    if w.Counting? {
      var last := ProgressPost(job, n, job.plan[n - 1]);
      assert Body(job, n) == Partial(w) + last;
      NoMoreKernels(Body(job, n), Partial(w), last);
      BodyResults(job, n);
    } else {
      var kernels := ResultsOf(w);
      var last := if Partial(w) == Body(job, kernels) then [] else ProgressPost(job, kernels, job.plan[kernels]);
      assert Partial(w) == Body(job, kernels) + last;
      NoMoreKernels(Partial(w), Body(job, kernels), last);
      BodyResults(job, kernels);
    }
  }

  // Posts of one run that never report less progress than before, nor more than `most`.
  ghost predicate Rising(posts: seq<Post>, run: nat, total: nat, most: nat) {
    && (forall i :: 0 <= i < |posts| ==> posts[i].run == run && !posts[i].Finish?)
    && (forall i :: 0 <= i < |posts| && posts[i].Progress? ==> posts[i].total == total && posts[i].completed <= most)
    && (forall i, j :: 0 <= i < j < |posts| && posts[i].Progress? && posts[j].Progress? ==>
          posts[i].completed <= posts[j].completed)
  }

  lemma RisingMore(posts: seq<Post>, run: nat, total: nat, most: nat, p: Post)
    requires Rising(posts, run, total, most) && p.run == run && !p.Finish?
    requires p.Progress? ==> p.total == total && p.completed >= most
    ensures Rising(posts + [p], run, total, if p.Progress? then p.completed else most)
  {
  }

  lemma AboutRises(posts: seq<Post>, job: Job, n: nat)
    requires 0 < n <= |job.plan| && Rising(posts, job.run, |job.plan|, n - 1)
    ensures Rising(posts + About(job, n), job.run, |job.plan|, n)
  {
    var p, rising := job.plan[n - 1], posts;
    if job.progress {
      RisingMore(rising, job.run, |job.plan|, n - 1, Progress(job.run, n - 1, |job.plan|, p));
      rising := rising + [Progress(job.run, n - 1, |job.plan|, p)];
    }
    if job.result {
      RisingMore(rising, job.run, |job.plan|, n - 1, Result(job.run, p));
      rising := rising + [Result(job.run, p)];
    }
    if job.progress {
      RisingMore(rising, job.run, |job.plan|, n - 1, Progress(job.run, n, |job.plan|, p));
      rising := rising + [Progress(job.run, n, |job.plan|, p)];
    }
    assert posts + About(job, n) == rising;
  }

  lemma {:induction false} BodyRises(job: Job, n: nat)
    requires n <= |job.plan|
    ensures Rising(Body(job, n), job.run, |job.plan|, n)
  {
    if n > 0 {
      BodyRises(job, n - 1);
      BodyStep(job, n);
      AboutRises(Body(job, n - 1), job, n);
    }
  }

  // A run reports progress that never falls, posts its end once, and posts nothing after.
  lemma ProgressRisesToTheEnd(d: Done)
    requires Sensible(d)
    ensures exists before :: Posted(d) == before + FinishPost(d.job, d.cancelled) &&
                             Rising(before, d.job.run, |d.job.plan|, d.completed)
  {
    BodyRises(d.job, d.completed);
    var before := Body(d.job, d.completed);
    if d.announced && d.job.progress {
      var p := Progress(d.job.run, d.completed, |d.job.plan|, d.job.plan[d.completed]);
      RisingMore(before, d.job.run, |d.job.plan|, d.completed, p);
      before := before + [p];
    }
    assert Posted(d) == before + FinishPost(d.job, d.cancelled);
  }

  // And so does a run in progress: it has reported no more progress than it has made.
  lemma ProgressRisesSoFar(w: Worker)
    requires Busy(w) && InPlan(w)
    ensures Rising(Partial(w), w.job.run, |w.job.plan|, w.completed)
  {
    var job, n := w.job, w.completed;
    if w.Counting? {
      BodyRises(job, n);
      assert Body(job, n) == Partial(w) + ProgressPost(job, n, job.plan[n - 1]);
      RisingPrefix(Body(job, n), |Partial(w)|, job.run, |job.plan|, n);
    } else {
      var kernels := ResultsOf(w);
      BodyRises(job, kernels);
      if Partial(w) != Body(job, kernels) {
        RisingMore(Body(job, kernels), job.run, |job.plan|, kernels,
                   Progress(job.run, kernels, |job.plan|, job.plan[kernels]));
      }
    }
  }

  lemma RisingPrefix(posts: seq<Post>, size: nat, run: nat, total: nat, most: nat)
    requires Rising(posts, run, total, most) && size <= |posts|
    ensures Rising(posts[..size], run, total, most)
  {
  }

  // wait_until_idle: a call returns when the service is stopping, or when everything about
  // every accepted run has been posted; and nobody stays blocked at such a moment.
  lemma WaitMeansPosted(s: State, k: nat)
    requires Reachable(s) && Enabled(s, CheckIdle(k)) && Apply(s, CheckIdle(k)).callers[k] == Released && !s.stopping
    ensures Jobs(s.done) == s.accepted && AllSensible(s.done) && s.posts == AllPosted(s.done)
  {
    ReachableInv(s);
    assert Jobs(s.done) + [] + [] == Jobs(s.done);
  }

  lemma NobodyIsForgotten(s: State, k: nat)
    requires Reachable(s) && k < |s.callers| && s.callers[k] == Blocked
    ensures s.running || s.stopping || s.worker == Notifying
    ensures s.teardown != Joining
  {
    ReachableInv(s);
  }

  // ----- The flag ---------------------------------------------------------------------

  // Steps that ask for nothing to be cancelled.
  ghost predicate Uncancelling(steps: seq<Step>) {
    forall k :: 0 <= k < |steps| ==> steps[k] != Cancel && steps[k] != StopCancel
  }

  // The run accepted after `before` runs has ended as cancelled.
  ghost predicate EndedCancelled(s: State, before: nat) {
    before < |s.done| && s.done[before].cancelled
  }

  // While no one asks to cancel, the latest run stays clean and no later run is started
  // from a raised flag unless this one left it raised.
  lemma {:induction false} CleanStays(steps: seq<Step>, s: State, end: State, run: nat)
    requires Runs(steps, s, end) && Uncancelling(steps) && Inv(s)
    requires !s.cancelled && (run < |s.accepted| ==> s.clean)
    requires forall k :: run <= k < |s.done| ==> s.done[k].clean
    ensures forall k :: run <= k < |end.done| ==> end.done[k].clean
    ensures Inv(end)
    decreases |steps|
  {
    if steps != [] {
      var next := Apply(s, steps[0]);
      StepKeepsInv(s, steps[0]);
      assert Uncancelling(steps[1..]);
      assert steps[0] != Cancel && steps[0] != StopCancel;
      CleanStep(s, steps[0], run);
      CleanStays(steps[1..], next, end, run);
    }
  }

  lemma CleanStep(s: State, step: Step, run: nat)
    requires Inv(s) && Enabled(s, step) && step != Cancel && step != StopCancel
    requires !s.cancelled && (run < |s.accepted| ==> s.clean)
    requires forall k :: run <= k < |s.done| ==> s.done[k].clean
    ensures var next := Apply(s, step);
            && !next.cancelled && (run < |next.accepted| ==> next.clean)
            && forall k :: run <= k < |next.done| ==> next.done[k].clean
  {
    if step.End? {
      assert |s.accepted| > |s.done|;
    }
  }

  // How a raised flag ends a run that nobody asked to cancel: the worker takes it and
  // looks at the flag before the starter gets to clear it.
  function StaleSteps(s: State, start: Step): (steps: seq<Step>) {
    [start] + AwakeSteps(s.worker)
  }

  function AwakeSteps(w: Worker): (steps: seq<Step>) {
    if w == Notifying then [NotifyIdle] + [Check, Test, End]
    else if w == Sleeping then [WakeSpuriously] + [Check, Test, End]
    else [Check, Test, End]
  }

  lemma RunsCons(s: State, step: Step, steps: seq<Step>, end: State)
    requires Enabled(s, step) && Runs(steps, Apply(s, step), end)
    ensures Runs([step] + steps, s, end)
  {
    assert ([step] + steps)[1..] == steps;
  }

  lemma StaleFlagCancels(s: State, start: Step)
    returns (end: State)
    requires Inv(s) && start.Start? && Enabled(s, start) && s.cancelled
    ensures Runs(StaleSteps(s, start), s, end) && Uncancelling(StaleSteps(s, start))
    ensures EndedCancelled(end, |s.accepted|)
  {
    assert |s.done| == |s.accepted|;
    var a := Apply(s, start);
    end := AwokenStale(a);
    RunsCons(s, start, AwakeSteps(a.worker), end);
    assert StaleSteps(s, start) == [start] + AwakeSteps(a.worker);
  }

  lemma AwokenStale(a: State) returns (e: State)
    requires a.worker == Checking || a.worker == Notifying || a.worker == Sleeping
    requires |a.pending| == 1 && a.pending[0].plan != [] && a.cancelled && !a.stopping
    ensures Runs(AwakeSteps(a.worker), a, e)
    ensures |e.done| == |a.done| + 1 && e.done[|a.done|].cancelled
  {
    if a.worker == Notifying {
      e := TakenStale(Apply(a, NotifyIdle));
      RunsCons(a, NotifyIdle, [Check, Test, End], e);
    } else if a.worker == Sleeping {
      e := TakenStale(Apply(a, WakeSpuriously));
      RunsCons(a, WakeSpuriously, [Check, Test, End], e);
    } else {
      e := TakenStale(a);
    }
  }

  lemma TakenStale(b: State) returns (e: State)
    requires b.worker == Checking && |b.pending| == 1 && b.pending[0].plan != [] && b.cancelled && !b.stopping
    ensures Runs([Check, Test, End], b, e)
    ensures |e.done| == |b.done| + 1 && e.done[|b.done|].cancelled
  {
    var c := Apply(b, Check);
    var d := Apply(c, Test);
    e := Apply(d, End);
    assert Runs([], e, e);
    RunsCons(d, End, [], e);
    RunsCons(c, Test, [End], e);
    RunsCons(b, Check, [Test, End], e);
    assert [Test, End] == [Test] + [End] && [Check, Test, End] == [Check] + [Test, End];
  }

  lemma ClearFlagCompletes(s: State, start: Step, steps: seq<Step>, end: State)
    requires Inv(s) && start.Start? && Enabled(s, start) && !s.cancelled
    requires Runs([start] + steps, s, end) && Uncancelling(steps)
    ensures !EndedCancelled(end, |s.accepted|)
  {
    StepKeepsInv(s, start);
    assert ([start] + steps)[1..] == steps;
    assert |s.done| == |s.accepted|;
    CleanStays(steps, Apply(s, start), end, |s.accepted|);
    assert |s.accepted| < |end.done| ==> Sensible(end.done[|s.accepted|]);
  }

  // A run can end as cancelled although nobody asked for it since it was accepted exactly
  // when the flag was up at the moment it was accepted.
  lemma UncancelledUnlessStale(s: State, start: Step)
    requires Reachable(s) && start.Start? && Enabled(s, start)
    ensures s.cancelled <==>
            exists steps, end ::
              Runs([start] + steps, s, end) && Uncancelling(steps) && EndedCancelled(end, |s.accepted|)
  {
    ReachableInv(s);
    if s.cancelled {
      var end := StaleFlagCancels(s, start);
      var steps := StaleSteps(s, start)[1..];
      assert StaleSteps(s, start) == [start] + steps;
      assert Runs([start] + steps, s, end) && Uncancelling(steps) && EndedCancelled(end, |s.accepted|);
    }
    if steps, end :| Runs([start] + steps, s, end) && Uncancelling(steps) && EndedCancelled(end, |s.accepted|) {
      if !s.cancelled {
        ClearFlagCompletes(s, start, steps, end);
      }
    }
  }

  // A flag that is up at a start can be reached: one cancel before the first run will do.
  lemma StaleFlagHappens()
    ensures exists s :: Reachable(s) && s.cancelled && Enabled(s, Start([0], true, true, true))
  {
    var s := Apply(START, Cancel);
    assert Runs([], s, s);
    assert [Cancel][1..] == [];
    assert Runs([Cancel], START, s);
  }

  // There is a look at the flag still to come in the run in progress.
  predicate Ahead(s: State) {
    match s.worker
    case Testing(job, n) => n < |job.plan|
    case Announcing(_, _) => true
    case Measuring(_, _) => true
    case Judging(_, _) => true
    case Reporting(job, n) => n < |job.plan|
    case Counting(job, n) => n < |job.plan|
    case Ending(_, _, _, cancelled) => cancelled
    case _ => s.pending != [] && s.pending[0].plan != []
  }

  // The run accepted after `before` runs can only end as cancelled, if it ends.
  predicate Doomed(s: State, before: nat) {
    if |s.done| > before then s.done[before].cancelled
    else |s.done| == before && Ahead(s) && ((s.cancelled && s.toClear == 0 && s.running) || s.worker.Ending?)
  }

  lemma DoomedStep(s: State, step: Step, before: nat)
    requires Inv(s) && Enabled(s, step) && Doomed(s, before)
    ensures Doomed(Apply(s, step), before)
  {
    if |s.done| > before {
      assert Apply(s, step).done[before] == s.done[before];
    } else if Busy(s.worker) {
      DoomedBusy(s, step);
    } else {
      DoomedWaiting(s, step);
    }
  }

  lemma DoomedBusy(s: State, step: Step)
    requires Enabled(s, step) && Busy(s.worker) && InPlan(s.worker) && Doomed(s, |s.done|)
    ensures Doomed(Apply(s, step), |s.done|)
  {
    if step.End? || step.Test? || step.Judge? {
    } else {
      assert Apply(s, step).done == s.done;
    }
  }

  lemma DoomedWaiting(s: State, step: Step)
    requires Enabled(s, step) && !Busy(s.worker) && s.worker != Clearing && Doomed(s, |s.done|)
    ensures Doomed(Apply(s, step), |s.done|)
  {
    assert Apply(s, step).done == s.done;
  }

  // A cancel is honoured when the starter of the run has cleared the flag and the run
  // has yet to look at it: whatever happens next, the run does not end as complete.
  lemma {:induction false} CancelIsHonoured(steps: seq<Step>, s: State, end: State)
    requires Inv(s) && Runs(steps, s, end) && Doomed(s, |s.done|)
    ensures |s.done| < |end.done| ==> end.done[|s.done|].cancelled
  {
    DoomedRun(steps, s, end, |s.done|);
  }

  lemma {:induction false} DoomedRun(steps: seq<Step>, s: State, end: State, before: nat)
    requires Inv(s) && Runs(steps, s, end) && Doomed(s, before)
    ensures Doomed(end, before)
    decreases |steps|
  {
    if steps != [] {
      StepKeepsInv(s, steps[0]);
      DoomedStep(s, steps[0], before);
      DoomedRun(steps[1..], Apply(s, steps[0]), end, before);
    }
  }

  // The run in progress has yet to look at the flag, or the pending one will.
  predicate Looks(s: State) {
    Ahead(s) && !s.worker.Ending? && (Busy(s.worker) || !s.stopping)
  }

  // The step of a worker that is on a run.
  function WorkerStep(w: Worker): (step: Step)
    requires Busy(w)
  {
    match w
    case Testing(_, _) => Test
    case Announcing(_, _) => Announce
    case Measuring(_, _) => Measure
    case Judging(_, _) => Judge
    case Reporting(_, _) => Report
    case Counting(_, _) => Count
    case Ending(_, _, _, _) => End
  }

  // With the flag down, the worker alone brings its run to a complete end.
  lemma {:induction false} RunsToCompletion(s: State) returns (steps: seq<Step>, end: State)
    requires Inv(s) && Busy(s.worker) && !s.cancelled && (s.worker.Ending? ==> !s.worker.cancelled)
    ensures Runs(steps, s, end) && |end.done| == |s.done| + 1 && !end.done[|s.done|].cancelled
    decreases Weight(s.worker)
  {
    var step := WorkerStep(s.worker);
    var next := Apply(s, step);
    StepKeepsInv(s, step);
    if step.End? {
      steps, end := [], next;
    } else {
      WorkerWeightFalls(s, step);
      steps, end := RunsToCompletion(next);
    }
    RunsCons(s, step, steps, end);
    steps := [step] + steps;
  }

  // It fetches the pending run, if it has to, and does the same.
  lemma PendingToCompletion(s: State) returns (steps: seq<Step>, end: State)
    requires Inv(s) && s.pending != [] && !s.cancelled && !s.stopping
    ensures Runs(steps, s, end) && |end.done| == |s.done| + 1 && !end.done[|s.done|].cancelled
    decreases if s.worker == Checking then 0 else 1
  {
    var step := if s.worker == Notifying then NotifyIdle else if s.worker == Sleeping then WakeSpuriously else Check;
    var next := Apply(s, step);
    StepKeepsInv(s, step);
    if step.Check? {
      steps, end := RunsToCompletion(next);
    } else {
      steps, end := PendingToCompletion(next);
    }
    RunsCons(s, step, steps, end);
    steps := [step] + steps;
  }

  // A cancel that the starter has yet to clear away can be lost.
  lemma CancelIsLost(s: State) returns (steps: seq<Step>, end: State)
    requires Inv(s) && Looks(s) && s.toClear > 0
    ensures Runs([Cancel] + steps, s, end) && |end.done| == |s.done| + 1 && !end.done[|s.done|].cancelled
  {
    var asked := Apply(s, Cancel);
    var cleared := Apply(asked, Clear);
    StepKeepsInv(s, Cancel);
    StepKeepsInv(asked, Clear);
    if Busy(s.worker) {
      steps, end := RunsToCompletion(cleared);
    } else {
      steps, end := PendingToCompletion(cleared);
    }
    RunsCons(asked, Clear, steps, end);
    steps := [Clear] + steps;
    RunsCons(s, Cancel, steps, end);
  }

  // Such a moment can be reached: right after the first start.
  lemma UnclearedHappens()
    ensures exists s :: Reachable(s) && Looks(s) && s.toClear > 0
  {
    var start := Start([0], true, true, true);
    var s := Apply(START, start);
    assert Runs([], s, s);
    assert [start][1..] == [];
    assert Runs([start], START, s);
  }

  // A cancel before a look at the flag is sure to end the run as cancelled, whatever
  // happens next, exactly when no starter has yet to clear the flag.
  lemma CancelIsSureUnlessUncleared(s: State)
    requires Reachable(s) && Looks(s)
    ensures s.toClear == 0 <==>
            forall steps, end ::
              Runs([Cancel] + steps, s, end) && |s.done| < |end.done| ==> end.done[|s.done|].cancelled
  {
    ReachableInv(s);
    if s.toClear == 0 {
      forall steps, end | Runs([Cancel] + steps, s, end) && |s.done| < |end.done|
        ensures end.done[|s.done|].cancelled
      {
        assert ([Cancel] + steps)[1..] == steps;
        StepKeepsInv(s, Cancel);
        CancelIsHonoured(steps, Apply(s, Cancel), end);
      }
    } else {
      var steps, end := CancelIsLost(s);
      assert Runs([Cancel] + steps, s, end) && |s.done| < |end.done|;
    }
  }

  // ----- The service always comes to rest ---------------------------------------------

  predicate Internal(step: Step) {
    step in {Clear, Notify, Check, Test, Announce, Measure, Judge, Report, Count, End, Release, NotifyIdle}
  }

  function Weight(w: Worker): (n: int) {
    match w
    case Checking => 1
    case Testing(job, n) => 7 * (|job.plan| - n) + 5
    case Announcing(job, n) => 7 * (|job.plan| - n) + 4
    case Measuring(job, n) => 7 * (|job.plan| - n) + 3
    case Judging(job, n) => 7 * (|job.plan| - n) + 2
    case Reporting(job, n) => 7 * (|job.plan| - n) + 8
    case Counting(job, n) => 7 * (|job.plan| - n) + 7
    case Ending(_, _, _, _) => 4
    case Clearing => 3
    case Notifying => 2
    case _ => 0
  }

  function Remaining(s: State): (n: int) {
    Weight(s.worker) + 3 * s.toClear + 2 * s.toNotify + (if s.pending == [] then 0 else 7 * |s.pending[0].plan| + 6)
  }

  lemma WorkerWeightFalls(s: State, step: Step)
    requires Enabled(s, step) && (Busy(s.worker) ==> InPlan(s.worker))
    requires step in {Test, Announce, Measure, Judge, Report, Count, End, Release, NotifyIdle}
    ensures 0 <= Weight(Apply(s, step).worker) < Weight(s.worker)
  {
  }

  // However they are interleaved, the steps of the worker and the starters run out.
  lemma InternalStepsRunOut(s: State, step: Step)
    requires Inv(s) && Internal(step) && Enabled(s, step)
    ensures 0 <= Remaining(Apply(s, step)) < Remaining(s)
  {
    if step.Clear? || step.Notify? || step.Check? {
      WaitingWeightFalls(s, step);
    } else {
      WorkerWeightFalls(s, step);
      assert Apply(s, step).pending == s.pending;
    }
  }

  lemma WaitingWeightFalls(s: State, step: Step)
    requires Enabled(s, step) && step in {Clear, Notify, Check} && |s.pending| <= 1
    requires Busy(s.worker) ==> InPlan(s.worker)
    ensures 0 <= Remaining(Apply(s, step)) < Remaining(s)
  {
  }

  ghost predicate AtRest(s: State) {
    forall step :: Internal(step) ==> !Enabled(s, step)
  }

  lemma AtRestWorker(s: State)
    requires AtRest(s) && (Busy(s.worker) ==> InPlan(s.worker))
    ensures s.worker == Sleeping || s.worker == Gone
    ensures s.toClear == 0 && s.toNotify == 0
  {
    assert !Enabled(s, Clear) && !Enabled(s, Notify) && !Enabled(s, Check) && !Enabled(s, Test);
    assert !Enabled(s, Announce) && !Enabled(s, Measure) && !Enabled(s, Judge) && !Enabled(s, Report);
    assert !Enabled(s, Count) && !Enabled(s, End) && !Enabled(s, Release) && !Enabled(s, NotifyIdle);
  }

  // When they have run out, every accepted run is done and nobody waits: no run gets stuck.
  lemma RestMeansDone(s: State)
    requires Reachable(s) && AtRest(s)
    ensures !s.stopping ==> !s.running && Jobs(s.done) == s.accepted && NoneBlocked(s.callers)
    ensures s.teardown == WakingCallers || s.teardown == Joining ==> s.worker == Gone
  {
    ReachableInv(s);
    AtRestWorker(s);
    assert Jobs(s.done) + [] + [] == Jobs(s.done);
  }

  lemma StopStep(s: State, step: Step)
    requires Enabled(s, step)
    ensures Apply(s, step).stopping <==> s.stopping || step == Stop
  {
  }

  lemma WakeStep(s: State, step: Step)
    requires Enabled(s, step)
    ensures s.teardown == WakingCallers || s.teardown == Joining || step == WakeWorker ==>
              Apply(s, step).teardown == WakingCallers || Apply(s, step).teardown == Joining
  {
  }

  lemma {:induction false} StopLasts(steps: seq<Step>, start: State, end: State)
    requires Runs(steps, start, end)
    ensures start.stopping || Stop in steps ==> end.stopping
    ensures !start.stopping && Stop !in steps ==> !end.stopping
    ensures (start.teardown == WakingCallers || start.teardown == Joining || WakeWorker in steps) ==>
              end.teardown == WakingCallers || end.teardown == Joining
    decreases |steps|
  {
    if steps != [] {
      StopStep(start, steps[0]);
      WakeStep(start, steps[0]);
      StopLasts(steps[1..], Apply(start, steps[0]), end);
      assert steps == [steps[0]] + steps[1..];
    }
  }

  // Once the destructor has woken the worker, it is gone when its steps have run out; and
  // without a stop it is not.
  lemma StopEnds(steps: seq<Step>, s: State)
    requires Runs(steps, START, s) && AtRest(s)
    ensures WakeWorker in steps ==> s.worker == Gone
    ensures Stop !in steps ==> s.worker == Sleeping
  {
    StopLasts(steps, START, s);
    assert Reachable(s);
    RestMeansDone(s);
    ReachableInv(s);
    AtRestWorker(s);
  }

  // A whole run of one kernel: it is announced, measured, reported and counted, and the end is
  // posted while a caller waits; the caller is released, and then the service is torn down.
  // These are the states on the way.
  const RUN := Job([7], true, true, true, 0)
  const POSTS := [Progress(0, 0, 1, 7), Result(0, 7), Progress(0, 1, 1, 7), Finish(0, false)]
  const TAKEN := State([], true, false, false, Testing(RUN, 0), [], Up, 0, 1,
    [], [RUN], [], true)
  const ANNOUNCED := State([], true, false, false, Measuring(RUN, 0), [], Up, 0, 1,
    [Progress(0, 0, 1, 7)], [RUN], [], true)
  const MEASURED := State([], true, false, false, Reporting(RUN, 1), [], Up, 0, 1,
    [Progress(0, 0, 1, 7)], [RUN], [], true)
  const COUNTED := State([], true, false, false, Testing(RUN, 1), [], Up, 0, 1,
    [Progress(0, 0, 1, 7), Result(0, 7), Progress(0, 1, 1, 7)], [RUN], [], true)
  const WAITED := State([], true, false, false, Ending(RUN, 1, false, false), [Blocked], Up, 0, 1,
    [Progress(0, 0, 1, 7), Result(0, 7), Progress(0, 1, 1, 7)], [RUN], [], true)
  const POSTED := State([], true, false, false, Clearing, [Blocked], Up, 0, 1,
    POSTS, [RUN], [Done(RUN, 1, false, false, true)], true)
  const NOTIFIED := State([], false, false, false, Checking, [Asking], Up, 0, 1,
    POSTS, [RUN], [Done(RUN, 1, false, false, true)], true)
  const RELEASED := State([], false, false, false, Sleeping, [Released], Up, 0, 1,
    POSTS, [RUN], [Done(RUN, 1, false, false, true)], true)
  const AWOKEN := State([], false, false, false, Checking, [Released], Up, 0, 0,
    POSTS, [RUN], [Done(RUN, 1, false, false, true)], true)
  const CANCELLED := State([], false, true, true, Checking, [Released], WakingWorker, 0, 0,
    POSTS, [RUN], [Done(RUN, 1, false, false, true)], false)
  const ENDED := State([], false, true, true, Gone, [Released], Joining, 0, 0,
    POSTS, [RUN], [Done(RUN, 1, false, false, true)], false)

  lemma WholeRunHappens() returns (steps: seq<Step>)
    ensures Runs(steps, START, ENDED)
  {
    TakenNext();
    steps := [Start([7], true, true, true), Clear, Check];
    AnnouncedNext();
    RunsJoin(steps, [Test, Announce], START, TAKEN, ANNOUNCED);
    steps := steps + [Test, Announce];
    MeasuredNext();
    RunsJoin(steps, [Measure, Judge], START, ANNOUNCED, MEASURED);
    steps := steps + [Measure, Judge];
    CountedNext();
    RunsJoin(steps, [Report, Count], START, MEASURED, COUNTED);
    steps := steps + [Report, Count];
    WaitedNext();
    RunsJoin(steps, [Test, Ask, CheckIdle(0)], START, COUNTED, WAITED);
    steps := steps + [Test, Ask, CheckIdle(0)];
    PostedNext();
    RunsJoin(steps, [End], START, WAITED, POSTED);
    steps := steps + [End];
    NotifiedNext();
    RunsJoin(steps, [Release, NotifyIdle], START, POSTED, NOTIFIED);
    steps := steps + [Release, NotifyIdle];
    ReleasedNext();
    RunsJoin(steps, [CheckIdle(0), Check], START, NOTIFIED, RELEASED);
    steps := steps + [CheckIdle(0), Check];
    AwokenNext();
    RunsJoin(steps, [Notify], START, RELEASED, AWOKEN);
    steps := steps + [Notify];
    CancelledNext();
    RunsJoin(steps, [Stop, StopCancel], START, AWOKEN, CANCELLED);
    steps := steps + [Stop, StopCancel];
    EndedNext();
    RunsJoin(steps, [WakeWorker, WakeCallers, Check], START, CANCELLED, ENDED);
    steps := steps + [WakeWorker, WakeCallers, Check];
  }

  lemma TakenNext()
    ensures Runs([Start([7], true, true, true), Clear, Check], START, TAKEN)
  {
    var s1 := Apply(START, Start([7], true, true, true));
    var s2 := Apply(s1, Clear);
    var s3 := Apply(s2, Check);
    assert s3 == TAKEN && Runs([], TAKEN, TAKEN);
    RunsCons(s2, Check, [], TAKEN);
    RunsCons(s1, Clear, [Check], TAKEN);
    RunsCons(START, Start([7], true, true, true), [Clear, Check], TAKEN);
  }

  lemma AnnouncedNext()
    ensures Runs([Test, Announce], TAKEN, ANNOUNCED)
  {
    var s1 := Apply(TAKEN, Test);
    var s2 := Apply(s1, Announce);
    assert s2 == ANNOUNCED && Runs([], ANNOUNCED, ANNOUNCED);
    RunsCons(s1, Announce, [], ANNOUNCED);
    RunsCons(TAKEN, Test, [Announce], ANNOUNCED);
  }

  lemma MeasuredNext()
    ensures Runs([Measure, Judge], ANNOUNCED, MEASURED)
  {
    var s1 := Apply(ANNOUNCED, Measure);
    var s2 := Apply(s1, Judge);
    assert s2 == MEASURED && Runs([], MEASURED, MEASURED);
    RunsCons(s1, Judge, [], MEASURED);
    RunsCons(ANNOUNCED, Measure, [Judge], MEASURED);
  }

  lemma CountedNext()
    ensures Runs([Report, Count], MEASURED, COUNTED)
  {
    var s1 := Apply(MEASURED, Report);
    var s2 := Apply(s1, Count);
    assert s2 == COUNTED && Runs([], COUNTED, COUNTED);
    RunsCons(s1, Count, [], COUNTED);
    RunsCons(MEASURED, Report, [Count], COUNTED);
  }

  lemma WaitedNext()
    ensures Runs([Test, Ask, CheckIdle(0)], COUNTED, WAITED)
  {
    var s1 := Apply(COUNTED, Test);
    var s2 := Apply(s1, Ask);
    var s3 := Apply(s2, CheckIdle(0));
    assert s3 == WAITED && Runs([], WAITED, WAITED);
    RunsCons(s2, CheckIdle(0), [], WAITED);
    RunsCons(s1, Ask, [CheckIdle(0)], WAITED);
    RunsCons(COUNTED, Test, [Ask, CheckIdle(0)], WAITED);
  }

  lemma PostedNext()
    ensures Runs([End], WAITED, POSTED)
  {
    var s1 := Apply(WAITED, End);
    assert s1 == POSTED && Runs([], POSTED, POSTED);
    RunsCons(WAITED, End, [], POSTED);
  }

  lemma NotifiedNext()
    ensures Runs([Release, NotifyIdle], POSTED, NOTIFIED)
  {
    var s1 := Apply(POSTED, Release);
    var s2 := Apply(s1, NotifyIdle);
    assert s2 == NOTIFIED && Runs([], NOTIFIED, NOTIFIED);
    RunsCons(s1, NotifyIdle, [], NOTIFIED);
    RunsCons(POSTED, Release, [NotifyIdle], NOTIFIED);
  }

  lemma ReleasedNext()
    ensures Runs([CheckIdle(0), Check], NOTIFIED, RELEASED)
  {
    var s1 := Apply(NOTIFIED, CheckIdle(0));
    var s2 := Apply(s1, Check);
    assert s2 == RELEASED && Runs([], RELEASED, RELEASED);
    RunsCons(s1, Check, [], RELEASED);
    RunsCons(NOTIFIED, CheckIdle(0), [Check], RELEASED);
  }

  lemma AwokenNext()
    ensures Runs([Notify], RELEASED, AWOKEN)
  {
    var s1 := Apply(RELEASED, Notify);
    assert s1 == AWOKEN && Runs([], AWOKEN, AWOKEN);
    RunsCons(RELEASED, Notify, [], AWOKEN);
  }

  lemma CancelledNext()
    ensures Runs([Stop, StopCancel], AWOKEN, CANCELLED)
  {
    var s1 := Apply(AWOKEN, Stop);
    var s2 := Apply(s1, StopCancel);
    assert s2 == CANCELLED && Runs([], CANCELLED, CANCELLED);
    RunsCons(s1, StopCancel, [], CANCELLED);
    RunsCons(AWOKEN, Stop, [StopCancel], CANCELLED);
  }

  lemma EndedNext()
    ensures Runs([WakeWorker, WakeCallers, Check], CANCELLED, ENDED)
  {
    var s1 := Apply(CANCELLED, WakeWorker);
    var s2 := Apply(s1, WakeCallers);
    var s3 := Apply(s2, Check);
    assert s3 == ENDED && Runs([], ENDED, ENDED);
    RunsCons(s2, Check, [], ENDED);
    RunsCons(s1, WakeCallers, [Check], ENDED);
    RunsCons(CANCELLED, WakeWorker, [WakeCallers, Check], ENDED);
  }

  lemma {:induction false} RunsJoin(a: seq<Step>, b: seq<Step>, start: State, mid: State, end: State)
    requires Runs(a, start, mid) && Runs(b, mid, end)
    ensures Runs(a + b, start, end)
    decreases |a|
  {
    if a == [] {
      assert a + b == b;
    } else {
      assert (a + b)[1..] == a[1..] + b;
      RunsJoin(a[1..], b, Apply(start, a[0]), mid, end);
    }
  }

  // A blocked caller is woken by nothing but chance, the worker behind the end of a run, and the
  // destructor; and these two wake all of them.
  lemma WokenAtTheEnd(s: State, step: Step, k: nat)
    requires Enabled(s, step) && k < |s.callers| && s.callers[k] == Blocked
    ensures Apply(s, step).callers[k] != Blocked <==>
            step == WakeCallerSpuriously(k) || step == WakeCallers || step == NotifyIdle
  {
  }
}
