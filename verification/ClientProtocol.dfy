/** The unix client's handshake between its worker thread, the I/O callbacks and the application
(UnixDomainClient/ClientUnixConnection.cpp:57-137, 143-221) as a machine over values. */
module ClientProtocol {
  import opened Bytes
  import opened Runs

  type Path = nat
  type Conn = nat

  /** Where `Work` stands. */
  datatype Work =
    | NotStarted
    | AwaitsConnect    // for the connect promise, with a timeout
    | AwaitsStop       // for the condition variable
    | AwaitsError      // for the error promise, with a timeout
    | Done(ok: bool)

  datatype Client = Client(
    path: Path,
    shouldRun: bool,
    ioError: bool,
    expired: bool,
    clientConn: Option<Conn>,
    connPromise: Option<Conn>,
    errPromise: Option<(Conn, Path)>,  // which error satisfied it
    connSets: nat,                     // calls of set_value on the connect promise
    errSets: nat,                      // calls of set_value on the error promise
    flagging: nat,                     // error callbacks between the promise and the flag
    work: Work,
    delivered: Option<Conn>,           // by the connect callback of the one AsyncConnect
    errored: bool,                     // that connection's error callback was called
    closed: bool,                      // Work closed the connection
    starts: nat)                       // calls of Start

  datatype Event =
    | Start
    | StopSignals
    | ConnectCallback(conn: Conn)
    | OtherConnect(path: Path, conn: Conn)           // of another path
    | ErrorCallback(handle: Option<Conn>)            // the handle may be gone already
    | OtherError(path: Path, handle: Option<Conn>)   // of another connection or path
    | Flags                                          // the rest of an error callback
    | Connects
    | ConnectTimesOut
    | Wakes
    | ErrorArrives
    | ErrorTimesOut

  function Init(path: Path): Client {
    Client(path, false, false, false, None, None, None, 0, 0, 0, NotStarted, None, false, false, 0)
  }

  function SetConnection(s: Client, path: Path, conn: Conn): Client {
    if s.clientConn.Some? then s
    else if path != s.path then s
    else if s.connPromise.Some? then s.(connSets := s.connSets + 1)  // throws
    else s.(connPromise := Some(conn), connSets := s.connSets + 1)
  }

  /** `SetError` up to the promise. */
  function SetError(s: Client, path: Path, conn: Option<Conn>): Client {
    if s.clientConn.None? then s
    else if s.clientConn != conn then s
    else if path != s.path then s
    else if s.errPromise.Some? then s.(errSets := s.errSets + 1)  // throws
    else s.(errPromise := Some((s.clientConn.value, path)), errSets := s.errSets + 1, flagging := s.flagging + 1)
  }

  /** The callback protocol: after the connect was issued at most one connect callback and at most one
  error callback for that connection, which may no longer hold the handle.  With pool threads the error
  callback can be the first of the two. */
  predicate Enabled(s: Client, e: Event) {
    match e
    case Start => true
    case StopSignals => true
    case ConnectCallback(_) => !s.work.NotStarted? && s.delivered.None?
    case OtherConnect(path, _) => path != s.path
    case ErrorCallback(handle) =>
      !s.work.NotStarted? && !s.errored && (handle == s.delivered || handle.None? || s.delivered.None?)
    case OtherError(path, handle) => path != s.path || handle != s.delivered
    case Flags => s.flagging > 0
    case Connects => s.work.AwaitsConnect? && s.connPromise.Some?
    case ConnectTimesOut => s.work.AwaitsConnect? && s.connPromise.None?
    case Wakes => s.work.AwaitsStop? && (!s.shouldRun || s.ioError)
    case ErrorArrives => s.work.AwaitsError? && s.errPromise.Some?
    case ErrorTimesOut => s.work.AwaitsError? && s.errPromise.None?
  }

  function Finish(s: Client, ok: bool): Client {
    s.(work := Done(ok), expired := true)
  }

  function Step(s: Client, e: Event): Client
    requires Enabled(s, e)
  {
    match e
    case Start =>
      // a further start launches a second Work, which finds the futures taken, expires the client and
      // returns false, while the first one goes on
      var r := s.(shouldRun := true, starts := s.starts + 1);
      if s.work.NotStarted? then r.(work := AwaitsConnect) else r.(expired := true)
    case StopSignals => s.(shouldRun := false)
    case ConnectCallback(conn) => SetConnection(s.(delivered := Some(conn)), s.path, conn)
    case OtherConnect(path, conn) => SetConnection(s, path, conn)
    case ErrorCallback(handle) => SetError(s.(errored := true), s.path, handle)
    case OtherError(path, handle) => SetError(s, path, handle)
    case Flags => s.(ioError := true, flagging := s.flagging - 1)
    case Connects => s.(clientConn := s.connPromise, work := AwaitsStop)
    case ConnectTimesOut => Finish(s, false)
    case Wakes => s.(work := AwaitsError, closed := s.closed || !s.ioError)
    case ErrorArrives => Finish(s, true)
    case ErrorTimesOut => Finish(s, false)
  }

  ghost predicate Inv(s: Client) {
    && s.connPromise == s.delivered
    && s.connSets == (if s.delivered.Some? then 1 else 0)
    && (s.clientConn.Some? ==> s.clientConn == s.delivered)
    && (s.work.AwaitsConnect? ==> s.clientConn.None?)
    && (s.work.AwaitsStop? || s.work.AwaitsError? || s.work == Done(true) ==> s.clientConn.Some?)
    && s.errSets == (if s.errPromise.Some? then 1 else 0)
    && (s.errPromise.Some? ==> s.errored && s.clientConn.Some? && s.errPromise == Some((s.clientConn.value, s.path)))
    && (s.flagging > 0 || s.ioError || s.work == Done(true) ==> s.errPromise.Some?)
    && (s.errPromise.Some? ==> s.flagging > 0 || s.ioError)
    && (s.expired <==> s.work.Done? || s.starts > 1)
    && (s.work.NotStarted? <==> s.starts == 0)
    && (s.work.NotStarted? ==> s.delivered.None?)
    && (s.work.Done? ==> s.clientConn.Some? || s.errPromise.None?)
    && ((s.work.AwaitsError? || s.work.Done?) && s.clientConn.Some? ==> s.closed || s.ioError)
    && (s.closed ==> s.work.AwaitsError? || s.work.Done?)
  }

  lemma StepKeepsInv(s: Client, e: Event)
    requires Inv(s) && Enabled(s, e)
    ensures Inv(Step(s, e))
  {
  }

  lemma RunKeepsInv(s: Client, es: seq<Event>)
    requires Inv(s) && Feasible(Step, s, es)
    ensures Inv(Run(Step, s, es))
  {
    forall t, e | Inv(t) && Enabled(t, e) ensures Inv(Step(t, e)) {
      StepKeepsInv(t, e);
    }
    Preserved(Step, Inv, s, es);
  }

  lemma ReachableInv(path: Path, es: seq<Event>)
    requires Feasible(Step, Init(path), es)
    ensures Inv(Run(Step, Init(path), es))
  {
    RunKeepsInv(Init(path), es);
  }

  /** In every run each promise is satisfied at most once, so `set_value` never throws. */
  lemma PromisesOnce(path: Path, es: seq<Event>)
    requires Feasible(Step, Init(path), es)
    ensures var s := Run(Step, Init(path), es);
            s.connSets <= 1 && s.errSets <= 1
  {
    ReachableInv(path, es);
  }

  /** In every run `Work` returns true only if an error was recorded for the very connection and path
  the client holds. */
  lemma TrueMeansRecorded(path: Path, es: seq<Event>)
    requires Feasible(Step, Init(path), es)
    ensures var s := Run(Step, Init(path), es);
            && (s.work == Done(true) ==> s.clientConn.Some? && s.errPromise == Some((s.clientConn.value, s.path)) && s.errored)
            && s.path == path
  {
    ReachableInv(path, es);
    forall t: Client, e | t.path == path && Enabled(t, e) ensures Step(t, e).path == path {
    }
    Preserved(Step, (t: Client) => t.path == path, Init(path), es);
  }

  /** The number of `Start` calls in a run. */
  function Starts(es: seq<Event>): nat {
    if es == [] then 0 else (if es[0].Start? then 1 else 0) + Starts(es[1..])
  }

  lemma StepCountsStarts(s: Client, e: Event)
    requires Enabled(s, e)
    ensures Step(s, e).starts == s.starts + if e.Start? then 1 else 0
  {
    match e
    case Start =>
    case ConnectCallback(conn) => assert Step(s, e).starts == s.starts;
    case OtherConnect(path, conn) => assert Step(s, e).starts == s.starts;
    case ErrorCallback(handle) => assert Step(s, e).starts == s.starts;
    case OtherError(path, handle) => assert Step(s, e).starts == s.starts;
    case _ =>
  }

  lemma {:induction false} StartsAreCounted(s: Client, es: seq<Event>)
    requires Feasible(Step, s, es)
    ensures Run(Step, s, es).starts == s.starts + Starts(es)
    decreases |es|
  {
    if es != [] {
      StepCountsStarts(s, es[0]);
      StartsAreCounted(Step(s, es[0]), es[1..]);
    }
  }

  /** In every run the client has expired exactly when `Work` is over, or `Start` was called again, even
  though the first `Work` may still hold an open connection then. */
  lemma ExpiredExactly(path: Path, es: seq<Event>)
    requires Feasible(Step, Init(path), es)
    ensures var s := Run(Step, Init(path), es);
            s.expired <==> s.work.Done? || Starts(es) > 1
  {
    ReachableInv(path, es);
    StartsAreCounted(Init(path), es);
  }

  /** The events in which `Work` itself goes on. */
  predicate IsWork(e: Event) {
    e.Connects? || e.ConnectTimesOut? || e.Wakes? || e.ErrorArrives? || e.ErrorTimesOut?
  }

  /** How many waits of a started `Work` are still ahead. */
  function WaitsAhead(work: Work): nat {
    match work
    case NotStarted => 4
    case AwaitsConnect => 3
    case AwaitsStop => 2
    case AwaitsError => 1
    case Done(_) => 0
  }

  lemma WorkAdvances(s: Client, e: Event)
    requires Enabled(s, e)
    ensures WaitsAhead(Step(s, e).work) <= WaitsAhead(s.work)
    ensures IsWork(e) ==> WaitsAhead(Step(s, e).work) < WaitsAhead(s.work)
  {
    match e
    case Start =>
    case StopSignals =>
    case ConnectCallback(conn) => assert Step(s, e).work == s.work;
    case OtherConnect(path, conn) => assert Step(s, e).work == s.work;
    case ErrorCallback(handle) => assert Step(s, e).work == s.work;
    case OtherError(path, handle) => assert Step(s, e).work == s.work;
    case _ =>
  }

  /** The number of `Work`'s own events in a run. */
  function WorkEvents(es: seq<Event>): nat {
    if es == [] then 0 else (if IsWork(es[0]) then 1 else 0) + WorkEvents(es[1..])
  }

  lemma {:induction false} RunAdvances(s: Client, es: seq<Event>)
    requires Feasible(Step, s, es)
    ensures WorkEvents(es) + WaitsAhead(Run(Step, s, es).work) <= WaitsAhead(s.work)
    decreases |es|
  {
    if es != [] {
      WorkAdvances(s, es[0]);
      RunAdvances(Step(s, es[0]), es[1..]);
    }
  }

  /** Whether the client is to run: the last call of `Start` or `Stop` decides. */
  function Wanted(before: bool, es: seq<Event>): bool
    decreases |es|
  {
    if es == [] then before else
      Wanted(if es[0].Start? then true else if es[0].StopSignals? then false else before, es[1..])
  }

  lemma StepIsWanted(s: Client, e: Event)
    requires Enabled(s, e)
    ensures Step(s, e).shouldRun == if e.Start? then true else if e.StopSignals? then false else s.shouldRun
  {
  }

  lemma {:induction false} RunsAsWanted(s: Client, es: seq<Event>)
    requires Feasible(Step, s, es)
    ensures Run(Step, s, es).shouldRun == Wanted(s.shouldRun, es)
    decreases |es|
  {
    if es != [] {
      StepIsWanted(s, es[0]);
      RunsAsWanted(Step(s, es[0]), es[1..]);
    }
  }

  /** `Work` can do its next step. */
  ghost predicate CanGoOn(s: Client) {
    exists e | IsWork(e) :: Enabled(s, e)
  }

  /** A started `Work` that is not over is held up only by the condition variable. */
  lemma GoesOnExactly(s: Client)
    requires !s.work.NotStarted? && !s.work.Done?
    ensures CanGoOn(s) <==> !(s.work.AwaitsStop? && s.shouldRun && !s.ioError)
  {
    var e := if s.work.AwaitsConnect? then (if s.connPromise.Some? then Connects else ConnectTimesOut)
             else if s.work.AwaitsStop? then Wakes
             else if s.errPromise.Some? then ErrorArrives else ErrorTimesOut;
    assert IsWork(e);
  }

  /** A stop ends a started `Work`, whatever the callbacks and further calls do: at most three of its
  own events are left; until it is over one of them is possible, except exactly when it waits for the
  condition variable, no error is flagged, and a later `Start` undid the stop; and when it is over a
  connection that was taken over has been closed, or its error flagged. */
  lemma StopEndsWork(path: Path, es: seq<Event>, fs: seq<Event>)
    requires Feasible(Step, Init(path), es) && !Run(Step, Init(path), es).work.NotStarted?
    requires Feasible(Step, Step(Run(Step, Init(path), es), StopSignals), fs)
    ensures var r := Run(Step, Step(Run(Step, Init(path), es), StopSignals), fs);
            && WorkEvents(fs) <= 3 && (WorkEvents(fs) == 3 ==> r.work.Done?)
            && (!r.work.Done? ==> (CanGoOn(r) <==> !(r.work.AwaitsStop? && !r.ioError && Wanted(false, fs))))
            && (r.work.Done? && r.clientConn.Some? ==> r.closed || r.ioError)
  {
    var t := Step(Run(Step, Init(path), es), StopSignals);
    RunAdvances(t, fs);
    RunsAsWanted(t, fs);
    ReachableInv(path, es);
    StepKeepsInv(Run(Step, Init(path), es), StopSignals);
    RunKeepsInv(t, fs);
    if !Run(Step, t, fs).work.Done? {
      GoesOnExactly(Run(Step, t, fs));
    }
  }

  /** A connection whose error was flagged before `Work` woke is left alone: no continuation closes it. */
  lemma FlaggedNeverClosed(s: Client, es: seq<Event>)
    requires s.ioError && !s.closed && Feasible(Step, s, es)
    ensures Run(Step, s, es).ioError && !Run(Step, s, es).closed
  {
    var inv := (t: Client) => t.ioError && !t.closed;
    forall t, e | inv(t) && Enabled(t, e) ensures inv(Step(t, e)) {
    }
    Preserved(Step, inv, s, es);
  }

  /** Some continuation has `Work` close the connection. */
  ghost predicate CanClose(s: Client) {
    exists es :: Feasible(Step, s, es) && Run(Step, s, es).closed
  }

  /** `Work` holding a connection can still close it exactly as long as it waits for the condition
  variable and no error is flagged. */
  lemma ClosesExactly(path: Path, es: seq<Event>)
    requires Feasible(Step, Init(path), es)
    requires var s := Run(Step, Init(path), es); s.clientConn.Some? && !s.closed
    ensures var s := Run(Step, Init(path), es);
            CanClose(s) <==> s.work.AwaitsStop? && !s.ioError
  {
    ReachableInv(path, es);
    var s := Run(Step, Init(path), es);
    if s.ioError {
      forall fs | Feasible(Step, s, fs) ensures !Run(Step, s, fs).closed {
        FlaggedNeverClosed(s, fs);
      }
    } else {
      assert s.work.AwaitsStop?;
      var stopped := Step(s, StopSignals);
      assert Feasible(Step, Step(stopped, Wakes), []);
      Cons(Step, stopped, Wakes, []);
      Cons(Step, s, StopSignals, [Wakes] + []);
    }
  }

  /** Some continuation hands the connection `conn` over to `Work`. */
  ghost predicate CanTakeOver(s: Client, conn: Conn) {
    exists es :: Feasible(Step, s, es) && Run(Step, s, es).clientConn == Some(conn)
  }

  /** An arriving connection can still be taken over exactly when `Work` is not over; one that arrives
  after the wait timed out stays without an owner, so `Work` never closes it. */
  lemma TakenOverExactly(path: Path, es: seq<Event>, conn: Conn)
    requires Feasible(Step, Init(path), es) && Enabled(Run(Step, Init(path), es), ConnectCallback(conn))
    ensures var s := Run(Step, Init(path), es);
            CanTakeOver(Step(s, ConnectCallback(conn)), conn) <==> !s.work.Done?
  {
    ReachableInv(path, es);
    var s := Run(Step, Init(path), es);
    var t := Step(s, ConnectCallback(conn));
    if s.work.Done? {
      forall fs | Feasible(Step, t, fs) ensures Run(Step, t, fs).clientConn != Some(conn) {
        NeverOwned(t, fs);
      }
    } else {
      assert Step(t, Connects).clientConn == Some(conn);
      assert Feasible(Step, Step(t, Connects), []);
      Cons(Step, t, Connects, []);
    }
  }

  lemma NeverOwned(s: Client, es: seq<Event>)
    requires s.work.Done? && s.clientConn.None? && Feasible(Step, s, es)
    ensures Run(Step, s, es).clientConn.None? && Run(Step, s, es).closed == s.closed
  {
    var inv := (t: Client) => t.work.Done? && t.clientConn.None? && t.closed == s.closed;
    forall t, e | inv(t) && Enabled(t, e) ensures inv(Step(t, e)) {
    }
    Preserved(Step, inv, s, es);
  }

  /** The error callback is recorded exactly when `Work` has already taken the connection over and the
  callback still holds it. */
  lemma RecordedExactly(s: Client, handle: Option<Conn>)
    requires Inv(s) && Enabled(s, ErrorCallback(handle))
    ensures Step(s, ErrorCallback(handle)).errPromise.Some? <==> s.clientConn.Some? && handle.Some?
  {
  }

  /** An error that came without being recorded is lost: no continuation makes `Work` return true. */
  lemma LostErrorStaysLost(s: Client, es: seq<Event>)
    requires Inv(s) && s.errored && s.errPromise.None? && Feasible(Step, s, es)
    ensures Run(Step, s, es).work != Done(true)
  {
    var inv := (t: Client) => Inv(t) && t.errored && t.errPromise.None?;
    forall t, e | inv(t) && Enabled(t, e) ensures inv(Step(t, e)) {
      StepKeepsInv(t, e);
    }
    Preserved(Step, inv, s, es);
  }

  /** Some continuation lets `Work` return true. */
  ghost predicate CanReportError(s: Client) {
    exists es :: Feasible(Step, s, es) && Run(Step, s, es).work == Done(true)
  }

  /** What the last `Start`'s handle gives to `Stop`: a further start replaces the first `Work`'s handle
  by that of a `Work` that returned false. */
  predicate StopLearns(s: Client) {
    s.work == Done(true) && s.starts <= 1
  }

  /** Some continuation lets `Stop` learn of an error. */
  ghost predicate CanLearnError(s: Client) {
    exists es :: Feasible(Step, s, es) && StopLearns(Run(Step, s, es))
  }

  lemma RestartHidesErrors(s: Client)
    requires s.starts > 1
    ensures !CanLearnError(s)
  {
    forall es | Feasible(Step, s, es) ensures !StopLearns(Run(Step, s, es)) {
      StartsAreCounted(s, es);
    }
  }

  /** A `Work` that ended with false never comes to report an error. */
  lemma FalseIsFinal(s: Client)
    requires s.work == Done(false)
    ensures !CanReportError(s)
  {
    var inv := (t: Client) => t.work == Done(false);
    forall t, e | inv(t) && Enabled(t, e) ensures inv(Step(t, e)) {
    }
    forall es | Feasible(Step, s, es) ensures Run(Step, s, es).work == Done(false) {
      Preserved(Step, inv, s, es);
    }
  }

  /** A run of the steps that are left reports a recorded error, without a further start. */
  lemma {:induction false} RecordedIsReported(s: Client) returns (es: seq<Event>)
    requires Inv(s) && s.errPromise.Some? && !s.work.Done?
    ensures Feasible(Step, s, es) && Run(Step, s, es).work == Done(true) && Run(Step, s, es).starts == s.starts
    decreases if s.work.AwaitsError? then 0 else 1, if s.ioError then 0 else 1
  {
    if s.work.AwaitsError? {
      assert Feasible(Step, Step(s, ErrorArrives), []);
      Cons(Step, s, ErrorArrives, []);
      es := [ErrorArrives] + [];
    } else {
      var e := if s.ioError then Wakes else Flags;
      var rest := RecordedIsReported(Step(s, e));
      Cons(Step, s, e, rest);
      es := [e] + rest;
    }
  }

  /** In every run, an arriving error can still be reported by `Work` exactly when `Work` has taken the
  connection over and is not over, and the callback still holds the connection's handle; and `Stop` can
  learn of it exactly when, besides, `Start` was not called again.  An error that arrives before `Work`
  stored the connection, or after its wait for the error timed out, is never reported. */
  lemma ReportableExactly(path: Path, es: seq<Event>, handle: Option<Conn>)
    requires Feasible(Step, Init(path), es) && Enabled(Run(Step, Init(path), es), ErrorCallback(handle))
    ensures var s := Run(Step, Init(path), es);
            var t := Step(s, ErrorCallback(handle));
            && (CanReportError(t) <==> s.clientConn.Some? && handle.Some? && !s.work.Done?)
            && (CanLearnError(t) <==> s.clientConn.Some? && handle.Some? && !s.work.Done? && Starts(es) == 1)
  {
    ReachableInv(path, es);
    StartsAreCounted(Init(path), es);
    var s := Run(Step, Init(path), es);
    var t := Step(s, ErrorCallback(handle));
    StepKeepsInv(s, ErrorCallback(handle));
    StepCountsStarts(s, ErrorCallback(handle));
    RecordedExactly(s, handle);
    if s.work.Done? {
      FalseIsFinal(t);
    } else if t.errPromise.Some? {
      var fs := RecordedIsReported(t);
    } else {
      forall fs | Feasible(Step, t, fs) ensures Run(Step, t, fs).work != Done(true) {
        LostErrorStaysLost(t, fs);
      }
    }
    if t.starts > 1 {
      RestartHidesErrors(t);
    }
  }
}
