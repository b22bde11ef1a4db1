/** The worker pool's counter of free workers (IoServices/IoServicesImpl.cpp:59-82, 304-325, 366-371).
Every atomic access of the counter is a step of its own, so all interleavings of callers and jobs are
runs of this machine.  The service thread runs jobs like the workers do, and every thread also runs the
completions of reads, writes and timers, which the counter does not see. */
module WorkerProtocol {
  import opened Runs

  datatype Pool = Pool(
    free: int,        // _freeWorkerCount
    started: bool,    // the service thread runs
    workers: nat,     // threads created by AddWorker
    checked: nat,     // callers that saw the counter at 0 and are about to create a worker
    adding: nat,      // callers that created a worker and have not counted it yet
    posting: nat,     // callers about to post their job
    queued: nat,      // jobs posted and not picked up
    starting: nat,    // jobs picked up, counter not yet decremented
    inside: nat,      // jobs running
    finishing: nat,   // jobs that ended, counter not yet incremented
    completions: nat) // threads running an I/O or timer completion

  datatype Event =
    | Start
    | RunWorkChecks     // reads the counter
    | CreatesWorker
    | CountsWorker
    | Posts
    | PicksUp           // an idle thread takes a job
    | Decrements
    | WorkEnds(threw: bool)
    | Increments
    | CompletionBegins  // an idle thread runs an I/O or timer completion
    | CompletionEnds

  function Init(): Pool {
    Pool(0, false, 0, 0, 0, 0, 0, 0, 0, 0, 0)
  }

  function Threads(s: Pool): nat {
    s.workers + if s.started then 1 else 0
  }

  function Busy(s: Pool): nat {
    s.starting + s.inside + s.finishing + s.completions
  }

  predicate Enabled(s: Pool, e: Event) {
    match e
    case Start => !s.started
    case RunWorkChecks => s.started
    case CreatesWorker => s.checked > 0
    case CountsWorker => s.adding > 0
    case Posts => s.posting > 0
    case PicksUp => s.queued > 0 && Busy(s) < Threads(s)
    case Decrements => s.starting > 0
    case WorkEnds(_) => s.inside > 0
    case Increments => s.finishing > 0
    case CompletionBegins => Busy(s) < Threads(s)
    case CompletionEnds => s.completions > 0
  }

  function Step(s: Pool, e: Event): Pool
    requires Enabled(s, e)
  {
    match e
    case Start => s.(started := true, queued := s.queued + 1)  // posts the start notification
    case RunWorkChecks => if s.free == 0 then s.(checked := s.checked + 1) else s.(posting := s.posting + 1)
    case CreatesWorker => s.(checked := s.checked - 1, workers := s.workers + 1, adding := s.adding + 1)
    case CountsWorker => s.(adding := s.adding - 1, free := s.free + 1, posting := s.posting + 1)
    case Posts => s.(posting := s.posting - 1, queued := s.queued + 1)
    case PicksUp => s.(queued := s.queued - 1, starting := s.starting + 1)
    case Decrements => s.(starting := s.starting - 1, free := s.free - 1, inside := s.inside + 1)
    case WorkEnds(_) => s.(inside := s.inside - 1, finishing := s.finishing + 1)
    case Increments => s.(finishing := s.finishing - 1, free := s.free + 1)
    case CompletionBegins => s.(completions := s.completions + 1)
    case CompletionEnds => s.(completions := s.completions - 1)
  }

  predicate Inv(s: Pool) {
    && s.free + s.adding + s.finishing == s.workers - s.inside
    && Busy(s) <= Threads(s)
  }

  lemma ReachableInv(es: seq<Event>)
    requires Feasible(Step, Init(), es)
    ensures Inv(Run(Step, Init(), es))
  {
    forall t, e | Inv(t) && Enabled(t, e) ensures Inv(Step(t, e)) {
    }
    Preserved(Step, Inv, Init(), es);
  }

  /** In every run the counter plus the increments still due is the workers minus the running jobs,
  whether jobs return or throw. */
  lemma CounterConserved(es: seq<Event>)
    requires Feasible(Step, Init(), es)
    ensures var s := Run(Step, Init(), es);
            s.free + s.adding + s.finishing == s.workers - s.inside
  {
    ReachableInv(es);
  }

  /** The counter never falls below -1 by more than the workers created and not yet counted, and it is
  that low exactly when every thread, the service thread included, is between a job's decrement and
  its increment. */
  lemma CounterFloor(es: seq<Event>)
    requires Feasible(Step, Init(), es)
    ensures var s := Run(Step, Init(), es);
            && s.free >= -1 - s.adding
            && (s.free == -1 - s.adding <==> s.started && s.inside + s.finishing == Threads(s))
  {
    ReachableInv(es);
  }

  /** The jobs ever posted, the start notification included. */
  function Posted(es: seq<Event>): nat {
    if es == [] then 0 else (if es[0].Start? || es[0].Posts? then 1 else 0) + Posted(es[1..])
  }

  function Finished(es: seq<Event>): nat {
    if es == [] then 0 else (if es[0].Increments? then 1 else 0) + Finished(es[1..])
  }

  /** The completions begun and not ended among `es`. */
  function Completing(es: seq<Event>): int {
    if es == [] then 0 else
      (if es[0].CompletionBegins? then 1 else if es[0].CompletionEnds? then -1 else 0) + Completing(es[1..])
  }

  lemma StepConservesJobs(s: Pool, e: Event)
    requires Enabled(s, e)
    ensures Step(s, e).completions
            == s.completions + if e.CompletionBegins? then 1 else if e.CompletionEnds? then -1 else 0
    ensures var t := Step(s, e);
            t.queued + t.starting + t.inside + t.finishing + (if e.Increments? then 1 else 0)
            == s.queued + s.starting + s.inside + s.finishing + (if e.Start? || e.Posts? then 1 else 0)
  {
  }

  lemma {:induction false} RunConservesJobs(s: Pool, es: seq<Event>)
    requires Feasible(Step, s, es)
    ensures var t := Run(Step, s, es);
            t.queued + t.starting + t.inside + t.finishing + Finished(es)
            == s.queued + s.starting + s.inside + s.finishing + Posted(es)
    ensures Run(Step, s, es).completions == s.completions + Completing(es)
    decreases |es|
  {
    if es != [] {
      StepConservesJobs(s, es[0]);
      RunConservesJobs(Step(s, es[0]), es[1..]);
    }
  }

  /** No job is lost or run twice: in every run each job posted, the start notification first, is waiting,
  being picked up, running, or over; and the completions begun and not ended are those being run. */
  lemma JobsConserved(es: seq<Event>)
    requires Feasible(Step, Init(), es)
    ensures var s := Run(Step, Init(), es);
            && Posted(es) == s.queued + s.starting + s.inside + s.finishing + Finished(es)
            && Completing(es) == s.completions
  {
    RunConservesJobs(Init(), es);
  }

  /** `RunWork` with nobody in between: checks, adds a worker if need be, posts. */
  function RunWork(s: Pool): Pool
    requires s.started
  {
    var r := Step(s, RunWorkChecks);
    var added := if s.free == 0 then Step(Step(r, CreatesWorker), CountsWorker) else r;
    Step(added, Posts)
  }

  /** Every waiting job has an idle thread to run it. */
  predicate ThreadForEachJob(s: Pool) {
    s.queued <= Threads(s) - Busy(s)
  }

  /** `RunWork` leaves as many idle threads as waiting jobs, the posted one included, exactly when the
  jobs ahead, and the threads the counter does not see, leave room: it adds one worker at most, and only
  at a counter of exactly 0. */
  lemma EnoughThreadsExactly(es: seq<Event>)
    requires Feasible(Step, Init(), es) && Run(Step, Init(), es).started
    ensures var s := Run(Step, Init(), es);
            ThreadForEachJob(RunWork(s)) <==>
            s.queued + s.starting + s.completions <= s.free + s.adding + if s.free == 0 then 1 else 0
  {
    ReachableInv(es);
  }

  predicate Takes(before: Pool, e: Event, after: Pool) {
    Enabled(before, e) && after == Step(before, e)
  }

  /** The states of a run, one after each event. */
  ghost predicate Path(states: seq<Pool>, es: seq<Event>) {
    && |states| == |es| + 1 && states[0] == Init()
    && forall i {:trigger es[i]} | 0 <= i < |es| :: Takes(states[i], es[i], states[i + 1])
  }

  lemma PathIsRun(states: seq<Pool>, es: seq<Event>)
    requires Path(states, es)
    ensures Feasible(Step, Init(), es) && Run(Step, Init(), es) == states[|es|]
  {
    forall i | 0 <= i < |es| ensures Enabled(states[i], es[i]) && Step(states[i], es[i]) == states[i + 1] {
      assert Takes(states[i], es[i], states[i + 1]);
    }
    Traced(Step, states, es);
  }

  /** `RunWork` would add no worker, and leave more jobs waiting than threads idle. */
  predicate Neglects(s: Pool) {
    s.started && RunWork(s).workers == s.workers && !ThreadForEachJob(RunWork(s))
  }

  /** That happens exactly at a counter other than 0 that is too low for the jobs waiting, those being
  picked up and the completions being run, give or take the workers not counted yet. */
  lemma NeglectsExactly(es: seq<Event>)
    requires Feasible(Step, Init(), es) && Run(Step, Init(), es).started
    ensures var s := Run(Step, Init(), es);
            Neglects(s) <==> s.free != 0 && s.free + s.adding < s.queued + s.starting + s.completions
  {
    ReachableInv(es);
  }

  /** Two jobs posted one right after the other get one worker between them, and a third would get
  none. */
  lemma TwoJobsPosted() returns (es: seq<Event>)
    ensures Feasible(Step, Init(), es)
    ensures Run(Step, Init(), es).free == 1 && Neglects(Run(Step, Init(), es))
  {
    es := [Start, RunWorkChecks, CreatesWorker, CountsWorker, Posts, RunWorkChecks, Posts];
    var states := [
      Init(),
      Pool(0, true, 0, 0, 0, 0, 1, 0, 0, 0, 0),
      Pool(0, true, 0, 1, 0, 0, 1, 0, 0, 0, 0),
      Pool(0, true, 1, 0, 1, 0, 1, 0, 0, 0, 0),
      Pool(1, true, 1, 0, 0, 1, 1, 0, 0, 0, 0),
      Pool(1, true, 1, 0, 0, 0, 2, 0, 0, 0, 0),
      Pool(1, true, 1, 0, 0, 1, 2, 0, 0, 0, 0),
      Pool(1, true, 1, 0, 0, 0, 3, 0, 0, 0, 0)];
    PathIsRun(states, es);
  }

  lemma PathToMinusOne() returns (states: seq<Pool>, es: seq<Event>)
    ensures Path(states, es) && states[|es|].free == -1 && states[|es|].started && states[|es|].adding == 0
  {
    es := [Start, RunWorkChecks, CreatesWorker, CountsWorker, Posts, PicksUp, PicksUp, Decrements, Decrements];
    states := [
      Init(),
      Pool(0, true, 0, 0, 0, 0, 1, 0, 0, 0, 0),
      Pool(0, true, 0, 1, 0, 0, 1, 0, 0, 0, 0),
      Pool(0, true, 1, 0, 1, 0, 1, 0, 0, 0, 0),
      Pool(1, true, 1, 0, 0, 1, 1, 0, 0, 0, 0),
      Pool(1, true, 1, 0, 0, 0, 2, 0, 0, 0, 0),
      Pool(1, true, 1, 0, 0, 0, 1, 1, 0, 0, 0),
      Pool(1, true, 1, 0, 0, 0, 0, 2, 0, 0, 0),
      Pool(0, true, 1, 0, 0, 0, 0, 1, 1, 0, 0),
      Pool(-1, true, 1, 0, 0, 0, 0, 0, 2, 0, 0)];
  }

  /** -1 is reached once the start notification and a job run at the same time; the next job would get
  no worker. */
  lemma MinusOneIsReached() returns (es: seq<Event>)
    ensures Feasible(Step, Init(), es)
    ensures Run(Step, Init(), es).free == -1 && Neglects(Run(Step, Init(), es))
  {
    var states;
    states, es := PathToMinusOne();
    PathIsRun(states, es);
    NeglectsExactly(es);
  }
}
