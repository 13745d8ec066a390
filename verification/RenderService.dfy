/**
 The render pool as a protocol: any number of workers, callers waiting for idleness and
 views asking for frames, interleaved at every lock region, notification and post.
 */
module RenderService {
  // The view that asked, and the place of the request among all requests.
  datatype Job = Job(view: nat, serial: nat)

  // A worker about to test its condition, blocked on it, or at one of its steps on a job.
  datatype Worker =
    | Checking | Sleeping | Holding(job: Job) | Rendering(job: Job) | Finishing(job: Job, rendered: bool) | Gone

  // A caller of wait_until_idle.
  datatype Caller = Asking | Blocked | Released

  // How far the destructor is.
  datatype Teardown = Up | WakingWorkers | WakingCallers | Joining

  datatype View = View(live: bool, inFlight: bool)

  datatype State = State(
    queue: seq<Job>, active: nat, framesRendered: nat, stopping: bool,
    workers: seq<Worker>, callers: seq<Caller>, teardown: Teardown,
    // Calls of notify_one that submitters still owe, the posts not yet delivered, the views.
    owed: nat, posts: seq<Job>, views: seq<View>,
    // History: the jobs accepted, taken, finished and delivered, those dropped as their
    // view was gone, and views turned away.
    submitted: seq<Job>, taken: seq<Job>, finished: seq<Job>, delivered: seq<Job>, dropped: seq<Job>, refused: set<nat>)

  datatype Step =
    | Open | Request(view: nat) | Close(view: nat) | Deliver
    | Notify(worker: nat) | NotifyNobody | WakeSpuriously(worker: nat)
    | Check(worker: nat) | LookUp(worker: nat) | Post(worker: nat) | Finish(worker: nat)
    | Ask | CheckIdle(caller: nat) | WakeCallerSpuriously(caller: nat)
    | Stop | WakeWorkers | WakeCallers

  function Start(workers: nat): (s: State) {
    State([], 0, 0, false, seq(workers, _ => Checking), [], Up, 0, [], [], [], [], [], [], [], {})
  }

  predicate WorkerAt(s: State, i: nat) {
    i < |s.workers|
  }

  predicate SomebodySleeps(workers: seq<Worker>) {
    exists i :: 0 <= i < |workers| && workers[i] == Sleeping
  }

  predicate Idle(s: State) {
    s.queue == [] && s.active == 0
  }

  predicate Enabled(s: State, step: Step) {
    match step
    case Open => true
    case Request(v) => v < |s.views| && s.views[v].live && !s.views[v].inFlight
    case Close(v) => v < |s.views| && s.views[v].live
    case Deliver => s.posts != []
    case Notify(i) => s.owed > 0 && WorkerAt(s, i) && s.workers[i] == Sleeping
    case NotifyNobody => s.owed > 0 && !SomebodySleeps(s.workers)
    case WakeSpuriously(i) => WorkerAt(s, i) && s.workers[i] == Sleeping
    case Check(i) => WorkerAt(s, i) && s.workers[i] == Checking
    case LookUp(i) => WorkerAt(s, i) && s.workers[i].Holding?
    case Post(i) => WorkerAt(s, i) && s.workers[i].Rendering?
    case Finish(i) => WorkerAt(s, i) && s.workers[i].Finishing?
    case Ask => true
    case CheckIdle(k) => k < |s.callers| && s.callers[k] == Asking
    case WakeCallerSpuriously(k) => k < |s.callers| && s.callers[k] == Blocked
    case Stop => s.teardown == Up
    case WakeWorkers => s.teardown == WakingWorkers
    case WakeCallers => s.teardown == WakingCallers
  }

  function WakeAllWorkers(workers: seq<Worker>): (woken: seq<Worker>)
    ensures |woken| == |workers|
  {
    seq(|workers|, i requires 0 <= i < |workers| => if workers[i] == Sleeping then Checking else workers[i])
  }

  function WakeAllCallers(callers: seq<Caller>): (woken: seq<Caller>)
    ensures |woken| == |callers|
  {
    seq(|callers|, k requires 0 <= k < |callers| => if callers[k] == Blocked then Asking else callers[k])
  }

  predicate LiveView(views: seq<View>, v: nat) {
    v < |views| && views[v].live
  }

  // request_frame with submit: a view marks its request even when the pool turns it away.
  function Requested(s: State, v: nat): (next: State)
    requires v < |s.views|
  {
    var marked := s.(views := s.views[v := s.views[v].(inFlight := true)]);
    if s.stopping then marked.(refused := s.refused + {v})
    else
      var job := Job(v, |s.submitted|);
      marked.(queue := s.queue + [job], submitted := s.submitted + [job], owed := s.owed + 1)
  }

  // The wait of a worker, from testing its condition on.
  function Checked(s: State, i: nat): (next: State)
    requires WorkerAt(s, i)
  {
    if s.stopping then s.(workers := s.workers[i := Gone])
    else if s.queue == [] then s.(workers := s.workers[i := Sleeping])
    else
      s.(workers := s.workers[i := Holding(s.queue[0])], queue := s.queue[1..], active := s.active + 1,
         taken := s.taken + [s.queue[0]])
  }

  function Finished(s: State, i: nat): (next: State)
    requires WorkerAt(s, i) && s.workers[i].Finishing?
  {
    var active := if s.active > 0 then s.active - 1 else 0;
    s.(workers := s.workers[i := Checking], active := active,
       framesRendered := s.framesRendered + (if s.workers[i].rendered then 1 else 0),
       finished := s.finished + [s.workers[i].job],
       callers := if s.queue == [] && active == 0 then WakeAllCallers(s.callers) else s.callers)
  }

  // accept_frame, when the view is still there to take it.
  function DeliveredTo(views: seq<View>, v: nat): (next: seq<View>)
    ensures |next| == |views|
  {
    if LiveView(views, v) then views[v := views[v].(inFlight := false)] else views
  }

  function Apply(s: State, step: Step): (next: State)
    requires Enabled(s, step)
  {
    match step
    case Open => s.(views := s.views + [View(true, false)])
    case Request(v) => Requested(s, v)
    case Close(v) => s.(views := s.views[v := s.views[v].(live := false)])
    case Deliver =>
      s.(views := DeliveredTo(s.views, s.posts[0].view), posts := s.posts[1..], delivered := s.delivered + [s.posts[0]])
    case Notify(i) => s.(owed := s.owed - 1, workers := s.workers[i := Checking])
    case NotifyNobody => s.(owed := s.owed - 1)
    case WakeSpuriously(i) => s.(workers := s.workers[i := Checking])
    case Check(i) => Checked(s, i)
    case LookUp(i) =>
      var job := s.workers[i].job;
      if LiveView(s.views, job.view) then s.(workers := s.workers[i := Rendering(job)])
      else s.(workers := s.workers[i := Finishing(job, false)], dropped := s.dropped + [job])
    case Post(i) =>
      s.(workers := s.workers[i := Finishing(s.workers[i].job, true)], posts := s.posts + [s.workers[i].job])
    case Finish(i) => Finished(s, i)
    case Ask => s.(callers := s.callers + [Asking])
    case CheckIdle(k) => s.(callers := s.callers[k := if s.stopping || Idle(s) then Released else Blocked])
    case WakeCallerSpuriously(k) => s.(callers := s.callers[k := Asking])
    case Stop => s.(stopping := true, teardown := WakingWorkers)
    case WakeWorkers => s.(workers := WakeAllWorkers(s.workers), teardown := WakingCallers)
    case WakeCallers => s.(callers := WakeAllCallers(s.callers), teardown := Joining)
  }

  ghost predicate Run(steps: seq<Step>, start: State, end: State) {
    if steps == [] then start == end
    else Enabled(start, steps[0]) && Run(steps[1..], Apply(start, steps[0]), end)
  }

  // ----- Counting over the workers ----------------------------------------------------

  // The jobs workers have in hand; with `owing`, only those not yet posted or dropped.
  function Hands(workers: seq<Worker>, owing: bool): (jobs: multiset<Job>) {
    if workers == [] then multiset{} else InHand(workers[0], owing) + Hands(workers[1..], owing)
  }

  function InHand(w: Worker, owing: bool): (jobs: multiset<Job>) {
    match w
    case Holding(job) => multiset{job}
    case Rendering(job) => multiset{job}
    case Finishing(job, _) => if owing then multiset{} else multiset{job}
    case _ => multiset{}
  }

  lemma Rearranged(
    first: multiset<Job>, after: multiset<Job>, x: multiset<Job>, before: multiset<Job>, y: multiset<Job>)
    requires after + x == before + y
    ensures (first + after) + x == (first + before) + y
  {
    assert (first + after) + x == first + (after + x);
    assert (first + before) + y == first + (before + y);
  }

  lemma {:induction false} HandsUpdate(workers: seq<Worker>, i: nat, w: Worker, owing: bool)
    requires i < |workers|
    ensures Hands(workers[i := w], owing) + InHand(workers[i], owing) == Hands(workers, owing) + InHand(w, owing)
  {
    var rest := workers[1..];
    if i == 0 {
      assert workers[i := w][1..] == rest;
    } else {
      assert workers[i := w][1..] == rest[i - 1 := w];
      HandsUpdate(rest, i - 1, w, owing);
      Rearranged(InHand(workers[0], owing), Hands(rest[i - 1 := w], owing), InHand(workers[i], owing),
                 Hands(rest, owing), InHand(w, owing));
    }
  }

  lemma {:induction false} HandsWake(workers: seq<Worker>, owing: bool)
    ensures Hands(WakeAllWorkers(workers), owing) == Hands(workers, owing)
  {
    if workers != [] {
      assert WakeAllWorkers(workers)[1..] == WakeAllWorkers(workers[1..]);
      HandsWake(workers[1..], owing);
    }
  }

  lemma {:induction false} HandsStart(n: nat, owing: bool)
    ensures Hands(seq(n, _ => Checking), owing) == multiset{}
  {
    if n > 0 {
      assert seq<Worker>(n, _ => Checking)[1..] == seq(n - 1, _ => Checking);
      HandsStart(n - 1, owing);
    }
  }

  // How many workers are about to test their condition.
  function Awake(workers: seq<Worker>): (n: nat) {
    if workers == [] then 0 else (if workers[0] == Checking then 1 else 0) + Awake(workers[1..])
  }

  lemma {:induction false} AwakeUpdate(workers: seq<Worker>, i: nat, w: Worker)
    requires i < |workers|
    ensures Awake(workers[i := w]) ==
            Awake(workers) - (if workers[i] == Checking then 1 else 0) + (if w == Checking then 1 else 0)
  {
    if i == 0 {
      assert workers[0 := w][1..] == workers[1..];
    } else {
      assert workers[i := w][1..] == workers[1..][i - 1 := w];
      AwakeUpdate(workers[1..], i - 1, w);
    }
  }

  // ----- The invariant ----------------------------------------------------------------

  // Jobs are taken in the order they came.
  ghost predicate InOrder(s: State) {
    && s.submitted == s.taken + s.queue
    && forall k :: 0 <= k < |s.submitted| ==> s.submitted[k].serial == k
  }

  // Each job that is taken is in hand or finished.
  ghost predicate Accounts(s: State) {
    && multiset(s.taken) == Hands(s.workers, false) + multiset(s.finished)
    && s.active == |Hands(s.workers, false)|
  }

  // Until it is stopped, the pool owes the sleeping workers a wake-up for every queued
  // job that no worker is on its way to fetch.
  ghost predicate Wakes(s: State) {
    !s.stopping && SomebodySleeps(s.workers) ==> |s.queue| <= s.owed + Awake(s.workers)
  }

  ghost predicate NoneBlocked(callers: seq<Caller>) {
    forall k :: 0 <= k < |callers| ==> callers[k] != Blocked
  }

  // Nobody waits for idleness that has come already, nor after the last wake-up.
  ghost predicate Releases(s: State) {
    && (Idle(s) && !s.stopping ==> NoneBlocked(s.callers))
    && (s.teardown == Joining ==> NoneBlocked(s.callers))
  }

  ghost predicate Stops(s: State) {
    && s.stopping == (s.teardown != Up)
    && (s.teardown == WakingCallers || s.teardown == Joining ==> !SomebodySleeps(s.workers))
    && (!s.stopping ==> s.refused == {} && forall i :: 0 <= i < |s.workers| ==> s.workers[i] != Gone)
  }

  // The requests on their way: queued, in hand and not yet posted, or posted.
  function Outstanding(s: State): (jobs: multiset<Job>) {
    multiset(s.queue) + Hands(s.workers, true) + multiset(s.posts)
  }

  ghost predicate OnePerView(jobs: multiset<Job>, views: seq<View>) {
    && (forall a :: a in jobs ==> a.view < |views|)
    && (forall a :: a in jobs && LiveView(views, a.view) ==> jobs[a] == 1 && views[a.view].inFlight)
    && (forall a, b :: a in jobs && b in jobs && a.view == b.view && LiveView(views, a.view) ==> a == b)
  }

  ghost predicate Awaited(jobs: multiset<Job>, v: nat) {
    exists a :: a in jobs && a.view == v
  }

  // A live view has marked a request exactly when one is on its way or was turned away.
  ghost predicate Serves(s: State) {
    && OnePerView(Outstanding(s), s.views)
    && (forall v :: 0 <= v < |s.views| && s.views[v].live && s.views[v].inFlight && v !in s.refused ==>
          Awaited(Outstanding(s), v))
  }

  // Every request is on its way, delivered, or dropped, and then its view is gone.
  ghost predicate Dispatches(s: State) {
    && multiset(s.submitted) == Outstanding(s) + multiset(s.delivered) + multiset(s.dropped)
    && (forall j :: j in s.dropped ==> j.view < |s.views| && !s.views[j.view].live)
  }

  // How many workers have posted a frame and not yet counted it.
  function Uncounted(workers: seq<Worker>): (n: nat) {
    if workers == [] then 0
    else (if workers[0].Finishing? && workers[0].rendered then 1 else 0) + Uncounted(workers[1..])
  }

  // The counter of frames is behind by those not yet counted.
  ghost predicate CountsFrames(s: State) {
    s.framesRendered + Uncounted(s.workers) == |s.posts| + |s.delivered|
  }

  ghost predicate Inv(s: State) {
    && InOrder(s) && Accounts(s) && Wakes(s) && Releases(s) && Stops(s) && Serves(s)
    && Dispatches(s) && CountsFrames(s)
  }

  // ----- Every step keeps the invariant -----------------------------------------------

  // What a step makes of the worker it is a step of.
  function Moved(s: State, step: Step): (move: (nat, Worker))
    requires Enabled(s, step) &&
             (step.Notify? || step.WakeSpuriously? || step.Check? || step.LookUp? || step.Post? || step.Finish?)
    ensures WorkerAt(s, move.0) && Apply(s, step).workers == s.workers[move.0 := move.1]
  {
    match step
    case Notify(i) => (i, Checking)
    case WakeSpuriously(i) => (i, Checking)
    case Check(i) => (i, if s.stopping then Gone else if s.queue == [] then Sleeping else Holding(s.queue[0]))
    case LookUp(i) =>
      var job := s.workers[i].job;
      (i, if LiveView(s.views, job.view) then Rendering(job) else Finishing(job, false))
    case Post(i) => (i, Finishing(s.workers[i].job, true))
    case Finish(i) => (i, Checking)
  }

  predicate MovesWorker(step: Step) {
    step.Notify? || step.WakeSpuriously? || step.Check? || step.LookUp? || step.Post? || step.Finish?
  }

  lemma KeepsInOrder(s: State, step: Step)
    requires InOrder(s) && Enabled(s, step)
    ensures InOrder(Apply(s, step))
  {
    if step.Check? && !s.stopping && s.queue != [] {
      assert s.taken + s.queue == (s.taken + [s.queue[0]]) + s.queue[1..];
    } else if step.Request? && !s.stopping {
      var job := Job(step.view, |s.submitted|);
      assert s.submitted + [job] == s.taken + (s.queue + [job]);
    }
  }

  // A worker that keeps what it has in hand changes nothing in the sum.
  lemma HandsKept(workers: seq<Worker>, i: nat, w: Worker, owing: bool)
    requires i < |workers| && InHand(w, owing) == InHand(workers[i], owing)
    ensures Hands(workers[i := w], owing) == Hands(workers, owing)
  {
    HandsUpdate(workers, i, w, owing);
    Cancel(Hands(workers[i := w], owing), Hands(workers, owing), InHand(w, owing));
  }

  lemma Cancel(a: multiset<Job>, b: multiset<Job>, x: multiset<Job>)
    requires a + x == b + x
    ensures a == b
  {
    forall j ensures a[j] == b[j] {
      assert (a + x)[j] == a[j] + x[j];
    }
  }

  lemma KeepsAccounts(s: State, step: Step)
    requires Accounts(s) && Enabled(s, step)
    ensures Accounts(Apply(s, step))
  {
    if step.Check? && !s.stopping && s.queue != [] {
      TakingAccounts(s, step);
    } else if step.Finish? {
      FinishingAccounts(s, step);
    } else if MovesWorker(step) {
      MovingAccounts(s, step);
    } else if step.WakeWorkers? {
      HandsWake(s.workers, false);
    }
  }

  lemma MovingAccounts(s: State, step: Step)
    requires Accounts(s) && Enabled(s, step) && MovesWorker(step)
    requires !step.Finish? && !(step.Check? && !s.stopping && s.queue != [])
    ensures Accounts(Apply(s, step))
  {
    var move := MoveOnly(s, step);
    HandsKept(s.workers, move.0, move.1, false);
  }

  // Such a move leaves the accounts alone.
  lemma MoveOnly(s: State, step: Step) returns (move: (nat, Worker))
    requires Enabled(s, step) && MovesWorker(step)
    requires !step.Finish? && !(step.Check? && !s.stopping && s.queue != [])
    ensures move == Moved(s, step) && InHand(move.1, false) == InHand(s.workers[move.0], false)
    ensures var next := Apply(s, step); next.taken == s.taken && next.finished == s.finished && next.active == s.active
  {
    move := Moved(s, step);
  }

  lemma TakingAccounts(s: State, step: Step)
    requires Accounts(s) && Enabled(s, step) && step.Check? && !s.stopping && s.queue != []
    ensures Accounts(Apply(s, step))
  {
    HandsUpdate(s.workers, step.worker, Holding(s.queue[0]), false);
    OneTaken(s.taken, Hands(s.workers, false), Hands(Apply(s, step).workers, false), s.finished, s.queue[0]);
  }

  lemma OneTaken(taken: seq<Job>, hands: multiset<Job>, more: multiset<Job>, finished: seq<Job>, job: Job)
    requires multiset(taken) == hands + multiset(finished) && more + multiset{} == hands + multiset{job}
    ensures multiset(taken + [job]) == more + multiset(finished) && |more| == |hands| + 1
  {
    assert more == hands + multiset{job};
  }

  lemma FinishingAccounts(s: State, step: Step)
    requires Accounts(s) && Enabled(s, step) && step.Finish?
    ensures Accounts(Apply(s, step))
  {
    HandsUpdate(s.workers, step.worker, Checking, false);
    OneFinished(Hands(s.workers, false), Hands(Apply(s, step).workers, false), s.finished, s.workers[step.worker].job);
  }

  lemma OneFinished(hands: multiset<Job>, fewer: multiset<Job>, finished: seq<Job>, job: Job)
    requires fewer + multiset{job} == hands + multiset{}
    ensures hands + multiset(finished) == fewer + multiset(finished + [job]) && |hands| == |fewer| + 1
  {
    assert hands == fewer + multiset{job};
  }

  lemma KeepsWakes(s: State, step: Step)
    requires Wakes(s) && Enabled(s, step)
    ensures Wakes(Apply(s, step))
  {
    var next := Apply(s, step);
    if MovesWorker(step) {
      var move := Moved(s, step);
      AwakeUpdate(s.workers, move.0, move.1);
      if SomebodySleeps(next.workers) && move.1 != Sleeping {
        var k :| 0 <= k < |next.workers| && next.workers[k] == Sleeping;
        assert s.workers[k] == Sleeping;
      }
    } else if SomebodySleeps(next.workers) {
      var k :| 0 <= k < |next.workers| && next.workers[k] == Sleeping;
      assert next.workers == s.workers;
    }
  }

  lemma KeepsReleases(s: State, step: Step)
    requires Releases(s) && Stops(s) && Enabled(s, step)
    ensures Releases(Apply(s, step))
  {
  }

  lemma KeepsStops(s: State, step: Step)
    requires Stops(s) && Enabled(s, step)
    ensures Stops(Apply(s, step))
  {
    var next := Apply(s, step);
    if MovesWorker(step) && SomebodySleeps(next.workers) && s.stopping {
      var k :| 0 <= k < |next.workers| && next.workers[k] == Sleeping;
      assert s.workers[k] == Sleeping;
    }
  }

  // ----- One request a view -----------------------------------------------------------

  // What a step adds to the requests on their way, and what it takes off.
  function Added(s: State, step: Step): (jobs: multiset<Job>)
    requires Enabled(s, step)
  {
    if step.Request? && !s.stopping then multiset{Job(step.view, |s.submitted|)} else multiset{}
  }

  function Removed(s: State, step: Step): (jobs: multiset<Job>)
    requires Enabled(s, step)
  {
    match step
    case Deliver => multiset{s.posts[0]}
    case LookUp(i) =>
      if LiveView(s.views, s.workers[i].job.view) then multiset{} else multiset{s.workers[i].job}
    case _ => multiset{}
  }

  // A sum over queue, hands and posts, before and after, part by part.
  ghost predicate Balance(
    before: (multiset<Job>, multiset<Job>, multiset<Job>), after: (multiset<Job>, multiset<Job>, multiset<Job>),
    removed: multiset<Job>, added: multiset<Job>)
  {
    forall j :: after.0[j] + after.1[j] + after.2[j] + removed[j] == before.0[j] + before.1[j] + before.2[j] + added[j]
  }

  lemma BalanceSums(
    before: (multiset<Job>, multiset<Job>, multiset<Job>), after: (multiset<Job>, multiset<Job>, multiset<Job>),
    removed: multiset<Job>, added: multiset<Job>)
    requires Balance(before, after, removed, added)
    ensures (after.0 + after.1 + after.2) + removed == (before.0 + before.1 + before.2) + added
  {
  }

  ghost function Parts(s: State): (parts: (multiset<Job>, multiset<Job>, multiset<Job>)) {
    (multiset(s.queue), Hands(s.workers, true), multiset(s.posts))
  }

  lemma HeadOff(jobs: seq<Job>)
    requires jobs != []
    ensures multiset(jobs) == multiset(jobs[1..]) + multiset{jobs[0]}
  {
    assert jobs == [jobs[0]] + jobs[1..];
  }

  lemma OutstandingAfter(s: State, step: Step)
    requires Enabled(s, step)
    ensures Outstanding(Apply(s, step)) + Removed(s, step) == Outstanding(s) + Added(s, step)
  {
    if MovesWorker(step) {
      WorkerBalance(s, step);
    } else {
      OtherBalance(s, step);
    }
    BalanceSums(Parts(s), Parts(Apply(s, step)), Removed(s, step), Added(s, step));
  }

  lemma OtherBalance(s: State, step: Step)
    requires Enabled(s, step) && !MovesWorker(step)
    ensures Balance(Parts(s), Parts(Apply(s, step)), Removed(s, step), Added(s, step))
  {
    if step.WakeWorkers? {
      HandsWake(s.workers, true);
    } else if step.Deliver? {
      HeadOff(s.posts);
    }
  }

  lemma WorkerBalance(s: State, step: Step)
    requires Enabled(s, step) && MovesWorker(step)
    ensures Balance(Parts(s), Parts(Apply(s, step)), Removed(s, step), Added(s, step))
  {
    if step.Check? && !s.stopping && s.queue != [] {
      TakingBalance(s, step);
    } else if step.Post? {
      PostingBalance(s, step);
    } else if step.LookUp? {
      LookUpBalance(s, step);
    } else {
      var move := Moved(s, step);
      assert InHand(move.1, true) == InHand(s.workers[move.0], true);
      HandsKept(s.workers, move.0, move.1, true);
    }
  }

  lemma Counts(after: multiset<Job>, x: multiset<Job>, before: multiset<Job>, y: multiset<Job>)
    requires after + x == before + y
    ensures forall j :: after[j] + x[j] == before[j] + y[j]
  {
    forall j ensures after[j] + x[j] == before[j] + y[j] {
      assert (after + x)[j] == (before + y)[j];
    }
  }

  lemma TakingBalance(s: State, step: Step)
    requires Enabled(s, step) && step.Check? && !s.stopping && s.queue != []
    ensures Balance(Parts(s), Parts(Apply(s, step)), multiset{}, multiset{})
  {
    var job, workers := s.queue[0], Apply(s, step).workers;
    HandsUpdate(s.workers, step.worker, Holding(job), true);
    Counts(Hands(workers, true), multiset{}, Hands(s.workers, true), multiset{job});
    HeadOff(s.queue);
  }

  lemma PostingBalance(s: State, step: Step)
    requires Enabled(s, step) && step.Post?
    ensures Balance(Parts(s), Parts(Apply(s, step)), multiset{}, multiset{})
  {
    var job, workers := s.workers[step.worker].job, Apply(s, step).workers;
    HandsUpdate(s.workers, step.worker, Finishing(job, true), true);
    Counts(Hands(workers, true), multiset{job}, Hands(s.workers, true), multiset{});
    assert multiset(s.posts + [job]) == multiset(s.posts) + multiset{job};
  }

  lemma LookUpBalance(s: State, step: Step)
    requires Enabled(s, step) && step.LookUp?
    ensures Balance(Parts(s), Parts(Apply(s, step)), Removed(s, step), multiset{})
  {
    var job, move := s.workers[step.worker].job, Moved(s, step).1;
    HandsUpdate(s.workers, step.worker, move, true);
    assert Apply(s, step).workers == s.workers[step.worker := move];
    Counts(Hands(Apply(s, step).workers, true), multiset{job}, Hands(s.workers, true), InHand(move, true));
  }

  ghost predicate AllAwaited(jobs: multiset<Job>, views: seq<View>, refused: set<nat>) {
    forall v :: 0 <= v < |views| && views[v].live && views[v].inFlight && v !in refused ==> Awaited(jobs, v)
  }

  // Delivery: the view gets its frame, and may ask again.
  lemma DeliverServes(jobs: multiset<Job>, fewer: multiset<Job>, p: Job, views: seq<View>, refused: set<nat>)
    requires OnePerView(jobs, views) && AllAwaited(jobs, views, refused) && fewer + multiset{p} == jobs
    ensures OnePerView(fewer, DeliveredTo(views, p.view)) && AllAwaited(fewer, DeliveredTo(views, p.view), refused)
  {
    var next := DeliveredTo(views, p.view);
    assert p in jobs;
    assert LiveView(views, p.view) ==> jobs[p] == 1 && p !in fewer;
    forall v | 0 <= v < |next| && next[v].live && next[v].inFlight && v !in refused
      ensures Awaited(fewer, v)
    {
      var a :| a in jobs && a.view == v;
      assert a in fewer;
    }
  }

  // The request of a view that is gone drops out.
  lemma DropServes(jobs: multiset<Job>, fewer: multiset<Job>, p: Job, views: seq<View>, refused: set<nat>)
    requires OnePerView(jobs, views) && AllAwaited(jobs, views, refused) && fewer + multiset{p} == jobs
    requires !LiveView(views, p.view)
    ensures OnePerView(fewer, views) && AllAwaited(fewer, views, refused)
  {
    forall v | 0 <= v < |views| && views[v].live && views[v].inFlight && v !in refused
      ensures Awaited(fewer, v)
    {
      var a :| a in jobs && a.view == v;
      assert a in fewer;
    }
  }

  // A view that is not waiting has nothing on its way, so it can ask once more.
  lemma RequestServes(
    jobs: multiset<Job>, more: multiset<Job>, job: Job, views: seq<View>, marked: seq<View>, refused: set<nat>)
    requires OnePerView(jobs, views) && AllAwaited(jobs, views, refused) && more == jobs + multiset{job}
    requires LiveView(views, job.view) && !views[job.view].inFlight
    requires marked == views[job.view := views[job.view].(inFlight := true)]
    ensures OnePerView(more, marked) && AllAwaited(more, marked, refused)
  {
    assert forall a :: a in jobs ==> a.view != job.view;
    forall v | 0 <= v < |marked| && marked[v].live && marked[v].inFlight && v !in refused
      ensures Awaited(more, v)
    {
      if v == job.view {
        assert job in more;
      } else {
        var a :| a in jobs && a.view == v;
        assert a in more;
      }
    }
  }

  // Views come and go, or ask in vain, while the requests stay as they are.
  lemma ViewsServe(jobs: multiset<Job>, views: seq<View>, more: seq<View>, refused: set<nat>, refused': set<nat>)
    requires OnePerView(jobs, views) && AllAwaited(jobs, views, refused) && |views| <= |more| && refused <= refused'
    requires forall v :: 0 <= v < |views| ==>
               (more[v].live ==> views[v].live) && (views[v].inFlight ==> more[v].inFlight) &&
               (more[v].inFlight ==> views[v].inFlight || v in refused')
    requires forall v :: |views| <= v < |more| ==> !more[v].inFlight
    ensures OnePerView(jobs, more) && AllAwaited(jobs, more, refused')
  {
  }

  lemma KeepsServes(s: State, step: Step)
    requires Serves(s) && Stops(s) && Enabled(s, step)
    ensures Serves(Apply(s, step))
  {
    OutstandingAfter(s, step);
    if step.Deliver? {
      DeliverServes(Outstanding(s), Outstanding(Apply(s, step)), s.posts[0], s.views, s.refused);
    } else if step.Request? && !s.stopping {
      SumsEmpty(Outstanding(s), Outstanding(Apply(s, step)), Added(s, step));
      RequestServes(Outstanding(s), Outstanding(Apply(s, step)), Job(step.view, |s.submitted|), s.views,
                    Apply(s, step).views, s.refused);
    } else if step.LookUp? && !LiveView(s.views, s.workers[step.worker].job.view) {
      DropServes(Outstanding(s), Outstanding(Apply(s, step)), s.workers[step.worker].job, s.views, s.refused);
    } else {
      OtherStepsServe(s, step);
    }
  }

  lemma OtherStepsServe(s: State, step: Step)
    requires Serves(s) && Enabled(s, step) && Added(s, step) == Removed(s, step) == multiset{}
    requires !step.Deliver? && !(step.Request? && !s.stopping)
    requires Outstanding(Apply(s, step)) + multiset{} == Outstanding(s) + multiset{}
    ensures Serves(Apply(s, step))
  {
    var next := Apply(s, step);
    SumsEmpty(Outstanding(next), Outstanding(s), multiset{});
    ViewsAfter(s, step);
    ViewsServe(Outstanding(s), s.views, next.views, s.refused, next.refused);
  }

  // Views open and close, and mark requests that are turned away.
  lemma ViewsAfter(s: State, step: Step)
    requires Enabled(s, step) && !step.Deliver? && !(step.Request? && !s.stopping)
    ensures var views, more, refused := s.views, Apply(s, step).views, Apply(s, step).refused;
            && |views| <= |more| && s.refused <= refused
            && (forall v :: 0 <= v < |views| ==>
                  (more[v].live ==> views[v].live) && (views[v].inFlight ==> more[v].inFlight) &&
                  (more[v].inFlight ==> views[v].inFlight || v in refused))
            && (forall v :: |views| <= v < |more| ==> !more[v].inFlight)
  {
  }

  lemma SumsEmpty(a: multiset<Job>, b: multiset<Job>, x: multiset<Job>)
    ensures a + multiset{} == b + multiset{} ==> a == b
    ensures b + multiset{} == a + x ==> b == a + x
  {
    assert a + multiset{} == a && b + multiset{} == b;
  }

  lemma KeepsDispatches(s: State, step: Step)
    requires Dispatches(s) && Serves(s) && Enabled(s, step)
    ensures Dispatches(Apply(s, step))
  {
    OutstandingAfter(s, step);
    SumsMove(multiset(s.submitted), Outstanding(s), multiset(s.delivered) + multiset(s.dropped),
             Outstanding(Apply(s, step)), Added(s, step), Removed(s, step));
    SubmittedAfter(s, step);
    DispatchedAfter(s, step);
    DroppedStayGone(s, step);
  }

  // What a step adds is accepted, and what it removes is delivered or dropped.
  lemma SubmittedAfter(s: State, step: Step)
    requires Enabled(s, step)
    ensures multiset(Apply(s, step).submitted) == multiset(s.submitted) + Added(s, step)
  {
    if step.Request? && !s.stopping {
      assert Apply(s, step).submitted == s.submitted + [Job(step.view, |s.submitted|)];
    } else {
      assert Apply(s, step).submitted == s.submitted;
    }
  }

  lemma DispatchedAfter(s: State, step: Step)
    requires Enabled(s, step)
    ensures multiset(Apply(s, step).delivered) + multiset(Apply(s, step).dropped) ==
            multiset(s.delivered) + multiset(s.dropped) + Removed(s, step)
  {
    var next := Apply(s, step);
    if step.Deliver? {
      assert next.delivered == s.delivered + [s.posts[0]] && next.dropped == s.dropped;
    } else if step.LookUp? && !LiveView(s.views, s.workers[step.worker].job.view) {
      assert next.delivered == s.delivered && next.dropped == s.dropped + [s.workers[step.worker].job];
    } else {
      assert next.delivered == s.delivered && next.dropped == s.dropped;
    }
  }

  lemma DroppedStayGone(s: State, step: Step)
    requires Dispatches(s) && Serves(s) && Enabled(s, step)
    ensures var next := Apply(s, step);
            forall j :: j in next.dropped ==> j.view < |next.views| && !next.views[j.view].live
  {
    ViewsStayGone(s, step);
    if step.LookUp? {
      InHandIsOutstanding(s, step.worker);
    }
  }

  lemma ViewsStayGone(s: State, step: Step)
    requires Enabled(s, step)
    ensures var next := Apply(s, step);
            |s.views| <= |next.views| && forall v :: 0 <= v < |s.views| && next.views[v].live ==> s.views[v].live
    ensures !step.LookUp? ==> Apply(s, step).dropped == s.dropped
  {
  }

  lemma SumsMove(
    total: multiset<Job>, out: multiset<Job>, done: multiset<Job>, out': multiset<Job>, added: multiset<Job>,
    removed: multiset<Job>)
    requires total == out + done && out' + removed == out + added
    ensures total + added == out' + (done + removed)
  {
    assert out' + (done + removed) == (out' + removed) + done;
  }

  lemma InHandIsOutstanding(s: State, i: nat)
    requires WorkerAt(s, i) && s.workers[i].Holding?
    ensures s.workers[i].job in Outstanding(s)
  {
    HandsUpdate(s.workers, i, Checking, true);
    assert s.workers[i].job in Hands(s.workers[i := Checking], true) + InHand(s.workers[i], true);
  }

  lemma {:induction false} UncountedUpdate(workers: seq<Worker>, i: nat, w: Worker)
    requires i < |workers|
    ensures Uncounted(workers[i := w]) ==
            Uncounted(workers) - Uncounted([workers[i]]) + Uncounted([w])
  {
    if i == 0 {
      assert workers[0 := w][1..] == workers[1..];
    } else {
      assert workers[i := w][1..] == workers[1..][i - 1 := w];
      UncountedUpdate(workers[1..], i - 1, w);
    }
  }

  lemma {:induction false} UncountedWake(workers: seq<Worker>)
    ensures Uncounted(WakeAllWorkers(workers)) == Uncounted(workers)
  {
    if workers != [] {
      assert WakeAllWorkers(workers)[1..] == WakeAllWorkers(workers[1..]);
      UncountedWake(workers[1..]);
    }
  }

  lemma KeepsCountsFrames(s: State, step: Step)
    requires CountsFrames(s) && Enabled(s, step)
    ensures CountsFrames(Apply(s, step))
  {
    if MovesWorker(step) {
      var move := Moved(s, step);
      UncountedUpdate(s.workers, move.0, move.1);
    } else if step.WakeWorkers? {
      UncountedWake(s.workers);
    }
  }

  lemma StepKeepsInv(s: State, step: Step)
    requires Inv(s) && Enabled(s, step)
    ensures Inv(Apply(s, step))
  {
    KeepsInOrder(s, step);
    KeepsAccounts(s, step);
    KeepsWakes(s, step);
    KeepsReleases(s, step);
    KeepsStops(s, step);
    KeepsServes(s, step);
    KeepsDispatches(s, step);
    KeepsCountsFrames(s, step);
  }

  lemma StartInv(workers: nat)
    ensures Inv(Start(workers))
  {
    HandsStart(workers, false);
    HandsStart(workers, true);
    UncountedStart(workers);
  }

  lemma {:induction false} UncountedStart(n: nat)
    ensures Uncounted(seq(n, _ => Checking)) == 0
  {
    if n > 0 {
      assert seq<Worker>(n, _ => Checking)[1..] == seq(n - 1, _ => Checking);
      UncountedStart(n - 1);
    }
  }

  // Every state of every run, with any number of workers, satisfies the invariant.
  lemma {:induction false} RunsKeepInv(steps: seq<Step>, start: State, end: State)
    requires Inv(start) && Run(steps, start, end)
    ensures Inv(end)
    decreases |steps|
  {
    if steps != [] {
      StepKeepsInv(start, steps[0]);
      RunsKeepInv(steps[1..], Apply(start, steps[0]), end);
    }
  }

  // ----- What the invariant means -----------------------------------------------------

  ghost predicate Reachable(s: State) {
    exists workers: nat, steps :: Run(steps, Start(workers), s)
  }

  lemma ReachableInv(s: State)
    requires Reachable(s)
    ensures Inv(s)
  {
    var workers: nat, steps :| Run(steps, Start(workers), s);
    StartInv(workers);
    RunsKeepInv(steps, Start(workers), s);
  }

  // Nothing is lost or done twice: what was submitted is queued, in hand or finished; and jobs
  // are taken in the order in which they came.
  lemma SubmittedIsAccountedFor(s: State)
    requires Reachable(s)
    ensures |s.submitted| == |s.queue| + s.active + |s.finished|
    ensures multiset(s.finished) <= multiset(s.submitted)
    ensures s.submitted == s.taken + s.queue
  {
    ReachableInv(s);
    assert |multiset(s.taken)| == |Hands(s.workers, false)| + |multiset(s.finished)|;
    assert multiset(s.submitted) == multiset(s.taken) + multiset(s.queue);
  }

  // No wake-up is lost: while jobs are queued, a worker is awake or one is owed a wake-up.
  lemma NoLostWakeUp(s: State)
    requires Reachable(s) && !s.stopping && s.queue != [] && s.workers != []
    ensures s.owed > 0 || exists i :: 0 <= i < |s.workers| && s.workers[i] != Sleeping && s.workers[i] != Gone
  {
    ReachableInv(s);
    if s.owed == 0 && s.workers[0] == Sleeping {
      AwakeOne(s.workers);
    }
  }

  lemma {:induction false} AwakeOne(workers: seq<Worker>)
    requires Awake(workers) > 0
    ensures exists i :: 0 <= i < |workers| && workers[i] == Checking
  {
    if workers[0] != Checking {
      AwakeOne(workers[1..]);
      var i :| 0 <= i < |workers| - 1 && workers[1..][i] == Checking;
      assert workers[i + 1] == Checking;
    }
  }

  // wait_until_idle: a call returns at a moment when the pool is stopping, or when every
  // job ever submitted is finished, and was posted, be it delivered yet or not, or else
  // found its view gone; and then every frame posted has been counted.
  lemma WaitMeansIdle(s: State, k: nat)
    requires Reachable(s) && Enabled(s, CheckIdle(k)) && Apply(s, CheckIdle(k)).callers[k] == Released && !s.stopping
    ensures multiset(s.finished) == multiset(s.submitted)
    ensures multiset(s.submitted) == multiset(s.posts) + multiset(s.delivered) + multiset(s.dropped)
    ensures forall j :: j in s.submitted ==> j in s.posts || j in s.delivered || !LiveView(s.views, j.view)
    ensures s.framesRendered == |s.posts| + |s.delivered|
  {
    ReachableInv(s);
    IdleMeansDispatched(s);
    forall j | j in s.submitted ensures j in s.posts || j in s.delivered || !LiveView(s.views, j.view) {
      assert j in multiset(s.posts) + multiset(s.delivered) + multiset(s.dropped);
    }
  }

  lemma IdleMeansDispatched(s: State)
    requires Inv(s) && Idle(s)
    ensures multiset(s.finished) == multiset(s.submitted)
    ensures multiset(s.submitted) == multiset(s.posts) + multiset(s.delivered) + multiset(s.dropped)
    ensures s.framesRendered == |s.posts| + |s.delivered|
  {
    assert s.submitted == s.taken;
    assert Hands(s.workers, false) == multiset{};
    EmptyHands(s.workers);
  }

  // A blocked caller is woken by nothing but chance, the finish that makes the pool idle, and
  // the destructor; and these two wake all of them.
  lemma WokenWhenIdle(s: State, step: Step, k: nat)
    requires Enabled(s, step) && k < |s.callers| && s.callers[k] == Blocked
    ensures Apply(s, step).callers[k] != Blocked <==>
            || step == WakeCallerSpuriously(k) || step == WakeCallers
            || (step.Finish? && Idle(Apply(s, step)))
  {
  }

  lemma RunCons(s: State, step: Step, steps: seq<Step>, end: State)
    requires Enabled(s, step) && Run(steps, Apply(s, step), end)
    ensures Run([step] + steps, s, end)
  {
    assert ([step] + steps)[1..] == steps;
  }

  // A whole run: a frame is asked for, rendered, posted and delivered while a caller waits;
  // the caller is released, and then the pool is torn down. These are the states on the way.
  const JOB := Job(0, 0)
  const TAKEN := State([], 1, 0, false, [Holding(JOB)], [], Up, 1, [], [View(true, true)],
    [JOB], [JOB], [], [], [], {})
  const POSTED := State([], 1, 0, false, [Finishing(JOB, true)], [], Up, 1, [JOB], [View(true, true)],
    [JOB], [JOB], [], [], [], {})
  const WAITED := State([], 1, 0, false, [Finishing(JOB, true)], [Blocked], Up, 1, [JOB], [View(true, true)],
    [JOB], [JOB], [], [], [], {})
  const FINISHED := State([], 0, 1, false, [Checking], [Released], Up, 1, [JOB], [View(true, true)],
    [JOB], [JOB], [JOB], [], [], {})
  const DELIVERED := State([], 0, 1, false, [Checking], [Released], Up, 1, [], [View(true, false)],
    [JOB], [JOB], [JOB], [JOB], [], {})
  const NOTIFIED := State([], 0, 1, false, [Checking], [Released], Up, 0, [], [View(true, false)],
    [JOB], [JOB], [JOB], [JOB], [], {})
  const STOPPED := State([], 0, 1, true, [Sleeping], [Released], WakingWorkers, 0, [], [View(true, false)],
    [JOB], [JOB], [JOB], [JOB], [], {})
  const ENDED := State([], 0, 1, true, [Gone], [Released], Joining, 0, [], [View(true, false)],
    [JOB], [JOB], [JOB], [JOB], [], {})

  lemma WholeRunHappens() returns (steps: seq<Step>)
    ensures Run(steps, Start(1), ENDED)
  {
    TakenNext();
    steps := [Open, Request(0), Check(0)];
    PostedNext();
    RunsJoin(steps, [LookUp(0), Post(0)], Start(1), TAKEN, POSTED);
    steps := steps + [LookUp(0), Post(0)];
    WaitedNext();
    RunsJoin(steps, [Ask, CheckIdle(0)], Start(1), POSTED, WAITED);
    steps := steps + [Ask, CheckIdle(0)];
    FinishedNext();
    RunsJoin(steps, [Finish(0), CheckIdle(0)], Start(1), WAITED, FINISHED);
    steps := steps + [Finish(0), CheckIdle(0)];
    DeliveredNext();
    RunsJoin(steps, [Deliver], Start(1), FINISHED, DELIVERED);
    steps := steps + [Deliver];
    NotifiedNext();
    RunsJoin(steps, [NotifyNobody], Start(1), DELIVERED, NOTIFIED);
    steps := steps + [NotifyNobody];
    StoppedNext();
    RunsJoin(steps, [Check(0), Stop], Start(1), NOTIFIED, STOPPED);
    steps := steps + [Check(0), Stop];
    EndedNext();
    RunsJoin(steps, [WakeWorkers, WakeCallers, Check(0)], Start(1), STOPPED, ENDED);
    steps := steps + [WakeWorkers, WakeCallers, Check(0)];
  }

  lemma TakenNext()
    ensures Run([Open, Request(0), Check(0)], Start(1), TAKEN)
  {
    var s1 := Apply(Start(1), Open);
    var s2 := Apply(s1, Request(0));
    var s3 := Apply(s2, Check(0));
    assert s3 == TAKEN && Run([], TAKEN, TAKEN);
    RunCons(s2, Check(0), [], TAKEN);
    RunCons(s1, Request(0), [Check(0)], TAKEN);
    RunCons(Start(1), Open, [Request(0), Check(0)], TAKEN);
  }

  lemma PostedNext()
    ensures Run([LookUp(0), Post(0)], TAKEN, POSTED)
  {
    var s1 := Apply(TAKEN, LookUp(0));
    var s2 := Apply(s1, Post(0));
    assert s2 == POSTED && Run([], POSTED, POSTED);
    RunCons(s1, Post(0), [], POSTED);
    RunCons(TAKEN, LookUp(0), [Post(0)], POSTED);
  }

  lemma WaitedNext()
    ensures Run([Ask, CheckIdle(0)], POSTED, WAITED)
  {
    var s1 := Apply(POSTED, Ask);
    var s2 := Apply(s1, CheckIdle(0));
    assert s2 == WAITED && Run([], WAITED, WAITED);
    RunCons(s1, CheckIdle(0), [], WAITED);
    RunCons(POSTED, Ask, [CheckIdle(0)], WAITED);
  }

  lemma FinishedNext()
    ensures Run([Finish(0), CheckIdle(0)], WAITED, FINISHED)
  {
    var s1 := Apply(WAITED, Finish(0));
    var s2 := Apply(s1, CheckIdle(0));
    assert s2 == FINISHED && Run([], FINISHED, FINISHED);
    RunCons(s1, CheckIdle(0), [], FINISHED);
    RunCons(WAITED, Finish(0), [CheckIdle(0)], FINISHED);
  }

  lemma DeliveredNext()
    ensures Run([Deliver], FINISHED, DELIVERED)
  {
    var s1 := Apply(FINISHED, Deliver);
    assert FINISHED.posts[1..] == [] && FINISHED.delivered + [Job(0, 0)] == [Job(0, 0)];
    assert s1.views == [View(true, false)];
    assert s1 == DELIVERED && Run([], DELIVERED, DELIVERED);
    RunCons(FINISHED, Deliver, [], DELIVERED);
  }

  lemma NotifiedNext()
    ensures Run([NotifyNobody], DELIVERED, NOTIFIED)
  {
    assert forall i :: 0 <= i < |DELIVERED.workers| ==> DELIVERED.workers[i] == Checking;
    var s1 := Apply(DELIVERED, NotifyNobody);
    assert s1 == NOTIFIED && Run([], NOTIFIED, NOTIFIED);
    RunCons(DELIVERED, NotifyNobody, [], NOTIFIED);
  }

  lemma StoppedNext()
    ensures Run([Check(0), Stop], NOTIFIED, STOPPED)
  {
    var s1 := Apply(NOTIFIED, Check(0));
    var s2 := Apply(s1, Stop);
    assert s2 == STOPPED && Run([], STOPPED, STOPPED);
    RunCons(s1, Stop, [], STOPPED);
    RunCons(NOTIFIED, Check(0), [Stop], STOPPED);
  }

  lemma EndedNext()
    ensures Run([WakeWorkers, WakeCallers, Check(0)], STOPPED, ENDED)
  {
    var s1 := Apply(STOPPED, WakeWorkers);
    var s2 := Apply(s1, WakeCallers);
    var s3 := Apply(s2, Check(0));
    assert s3 == ENDED && Run([], ENDED, ENDED);
    RunCons(s2, Check(0), [], ENDED);
    RunCons(s1, WakeCallers, [Check(0)], ENDED);
    RunCons(STOPPED, WakeWorkers, [WakeCallers, Check(0)], ENDED);
  }

  lemma {:induction false} RunsJoin(a: seq<Step>, b: seq<Step>, start: State, mid: State, end: State)
    requires Run(a, start, mid) && Run(b, mid, end)
    ensures Run(a + b, start, end)
    decreases |a|
  {
    if a == [] {
      assert a + b == b;
    } else {
      assert (a + b)[1..] == a[1..] + b;
      RunsJoin(a[1..], b, Apply(start, a[0]), mid, end);
    }
  }

  lemma {:induction false} EmptyHands(workers: seq<Worker>)
    requires Hands(workers, false) == multiset{}
    ensures Hands(workers, true) == multiset{} && Uncounted(workers) == 0
  {
    if workers != [] {
      assert InHand(workers[0], false) == multiset{} && Hands(workers[1..], false) == multiset{} by {
        assert forall j :: InHand(workers[0], false)[j] <= Hands(workers, false)[j];
        assert forall j :: Hands(workers[1..], false)[j] <= Hands(workers, false)[j];
      }
      EmptyHands(workers[1..]);
    }
  }

  // At every moment a request that was accepted is on its way, or was delivered, or dropped
  // as its view was gone, once; and no frame is counted that was not posted.
  lemma EveryRequestIsDispatched(s: State)
    requires Reachable(s)
    ensures multiset(s.submitted) == Outstanding(s) + multiset(s.delivered) + multiset(s.dropped)
    ensures forall j :: j in s.dropped ==> !LiveView(s.views, j.view)
    ensures |s.posts| + |s.delivered| - |s.workers| <= s.framesRendered <= |s.posts| + |s.delivered|
  {
    ReachableInv(s);
    UncountedBound(s.workers);
  }

  lemma {:induction false} UncountedBound(workers: seq<Worker>)
    ensures Uncounted(workers) <= |workers|
  {
    if workers != [] {
      UncountedBound(workers[1..]);
    }
  }

  lemma NobodyIsForgotten(s: State, k: nat)
    requires Reachable(s) && k < |s.callers| && s.callers[k] == Blocked
    ensures !s.stopping ==> s.queue != [] || s.active > 0
    ensures s.teardown != Joining
  {
    ReachableInv(s);
  }

  // Every live view has at most one request on its way, and exactly one while it waits,
  // unless it asked a pool that was stopping.
  lemma OneRequestPerView(s: State, v: nat)
    requires Reachable(s) && LiveView(s.views, v)
    ensures forall a, b :: a in Outstanding(s) && b in Outstanding(s) && a.view == b.view == v ==>
              a == b && Outstanding(s)[a] == 1
    ensures Awaited(Outstanding(s), v) ==> s.views[v].inFlight
    ensures s.views[v].inFlight && v !in s.refused ==> Awaited(Outstanding(s), v)
  {
    ReachableInv(s);
  }

  // ----- The pool always comes to rest ------------------------------------------------

  // The steps that workers and submitters take on their own.
  predicate Internal(step: Step) {
    step.Notify? || step.NotifyNobody? || step.Check? || step.LookUp? || step.Post? || step.Finish?
  }

  function Weight(w: Worker): (n: nat) {
    match w
    case Checking => 1
    case Sleeping => 0
    case Holding(_) => 5
    case Rendering(_) => 4
    case Finishing(_, _) => 3
    case Gone => 0
  }

  function Weights(workers: seq<Worker>): (n: nat) {
    if workers == [] then 0 else Weight(workers[0]) + Weights(workers[1..])
  }

  function Remaining(s: State): (n: nat) {
    6 * |s.queue| + 2 * s.owed + Weights(s.workers)
  }

  lemma {:induction false} WeightsUpdate(workers: seq<Worker>, i: nat, w: Worker)
    requires i < |workers|
    ensures Weights(workers[i := w]) == Weights(workers) - Weight(workers[i]) + Weight(w)
  {
    if i == 0 {
      assert workers[0 := w][1..] == workers[1..];
    } else {
      assert workers[i := w][1..] == workers[1..][i - 1 := w];
      WeightsUpdate(workers[1..], i - 1, w);
    }
  }

  // However they are interleaved, such steps run out.
  lemma InternalStepsRunOut(s: State, step: Step)
    requires Internal(step) && Enabled(s, step)
    ensures Remaining(Apply(s, step)) < Remaining(s)
  {
    if MovesWorker(step) {
      var move := Moved(s, step);
      WeightsUpdate(s.workers, move.0, move.1);
    }
  }

  ghost predicate AtRest(s: State) {
    forall step :: Internal(step) ==> !Enabled(s, step)
  }

  // When they have run out, all work is done: no run gets stuck short of it.
  lemma RestMeansDone(s: State)
    requires Reachable(s) && AtRest(s) && s.workers != []
    ensures s.stopping ==> forall i :: 0 <= i < |s.workers| ==> s.workers[i] == Gone || s.workers[i] == Sleeping
    ensures !s.stopping ==> s.queue == [] && s.active == 0 && multiset(s.finished) == multiset(s.submitted)
    ensures !s.stopping ==> multiset(s.submitted) == multiset(s.posts) + multiset(s.delivered) + multiset(s.dropped)
    ensures s.teardown == WakingCallers || s.teardown == Joining ==>
              forall i :: 0 <= i < |s.workers| ==> s.workers[i] == Gone
  {
    ReachableInv(s);
    forall i | 0 <= i < |s.workers|
      ensures s.workers[i] == Gone || s.workers[i] == Sleeping
    {
      assert !Enabled(s, Check(i)) && !Enabled(s, LookUp(i)) && !Enabled(s, Post(i)) && !Enabled(s, Finish(i));
    }
    NoHands(s.workers);
    if !s.stopping {
      assert s.workers[0] == Sleeping;
      assert !Enabled(s, Notify(0));
      assert s.queue == [];
      IdleMeansDispatched(s);
    }
  }

  lemma StopStep(s: State, step: Step)
    requires Enabled(s, step)
    ensures Apply(s, step).stopping <==> s.stopping || step == Stop
    ensures s.teardown == WakingCallers || s.teardown == Joining || step == WakeWorkers ==>
              Apply(s, step).teardown == WakingCallers || Apply(s, step).teardown == Joining
  {
  }

  lemma {:induction false} StopLasts(steps: seq<Step>, start: State, end: State)
    requires Run(steps, start, end)
    ensures start.stopping || Stop in steps ==> end.stopping
    ensures !start.stopping && Stop !in steps ==> !end.stopping
    ensures (start.teardown == WakingCallers || start.teardown == Joining || WakeWorkers in steps) ==>
              end.teardown == WakingCallers || end.teardown == Joining
    decreases |steps|
  {
    if steps != [] {
      StopStep(start, steps[0]);
      StopLasts(steps[1..], Apply(start, steps[0]), end);
      assert steps == [steps[0]] + steps[1..];
    }
  }

  // Once the destructor has woken the workers, they are all gone when their steps have run
  // out; and without a stop none of them is.
  lemma StopEnds(steps: seq<Step>, workers: nat, s: State)
    requires Run(steps, Start(workers), s) && AtRest(s) && s.workers != []
    ensures WakeWorkers in steps ==> forall i :: 0 <= i < |s.workers| ==> s.workers[i] == Gone
    ensures Stop !in steps ==> forall i :: 0 <= i < |s.workers| ==> s.workers[i] == Sleeping
  {
    StopLasts(steps, Start(workers), s);
    assert Reachable(s);
    RestMeansDone(s);
    if Stop !in steps {
      RestIsStill(s);
    }
  }

  lemma RestIsStill(s: State)
    requires Reachable(s) && AtRest(s) && !s.stopping
    ensures forall i :: 0 <= i < |s.workers| ==> s.workers[i] == Sleeping
  {
    ReachableInv(s);
    forall i | 0 <= i < |s.workers| ensures s.workers[i] == Sleeping {
      assert !Enabled(s, Check(i)) && !Enabled(s, LookUp(i)) && !Enabled(s, Post(i)) && !Enabled(s, Finish(i));
    }
  }

  lemma {:induction false} NoHands(workers: seq<Worker>)
    requires forall i :: 0 <= i < |workers| ==> workers[i] == Gone || workers[i] == Sleeping
    ensures Hands(workers, false) == multiset{} && Awake(workers) == 0
  {
    if workers != [] {
      assert workers[0] == Gone || workers[0] == Sleeping;
      NoHands(workers[1..]);
    }
  }
}
