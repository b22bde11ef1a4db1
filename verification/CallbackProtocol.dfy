/** The notifications one outgoing TCP connection gives its application
(IoServices/TcpPeerConnection.cpp:24-42, 95-102, 136-145; IoServices/IoServices.cpp:111-146).  For a
connection accepted by a server (IoServices/TcpServer.cpp:108-137) the connect is the accept, which may
fail without notice, the connect callback is the server's accept callback, and an I/O error goes to the
server's error handler.

After a successful connect the library first starts the chained read and only then runs the
application's connect callback.  With worker threads in the pool, a read completion may therefore be
dispatched on another thread before that callback has run. */
module CallbackProtocol {
  import opened Bytes
  import opened Runs
  import R = ReceiveProtocol

  datatype Notice = ConnectError | Connected | DataBegins(available: nat) | DataEnds | DataThrows | IoError

  datatype Phase =
    | Idle
    | Connecting
    | Reading   // the chained read has started, the connect callback has not run yet
    | Running
    | Failed    // the connect failed
    | Aborted   // starting the chained read threw

  datatype Conn = Conn(
    phase: Phase,
    rx: R.Rx,
    workers: nat,        // pool threads besides the service thread
    trace: seq<Notice>)

  datatype Event =
    | AsyncConnect
    | ConnectFails
    | ConnectSucceeds(chunk: nat, block: seq<byte>)
    | ConnectCallback
    | Read(e: R.Event)

  function Init(limit: nat, workers: nat): Conn {
    Conn(Idle, R.Init(limit), workers, [])
  }

  /** A completion of the read chain, dispatched by the I/O service. */
  predicate IsCompletion(e: Event) {
    e.Read? && (e.e.ReadCompletes? || e.e.ReadFails?)
  }

  predicate Enabled(s: Conn, e: Event) {
    match e
    case AsyncConnect => s.phase == Idle
    case ConnectFails => s.phase == Connecting
    case ConnectSucceeds(chunk, block) =>
      s.phase == Connecting && R.Enabled(s.rx, R.BeginChainedRead(chunk, true, block))
    case ConnectCallback => s.phase == Reading
    case Read(r) =>
      && (s.phase == Running || (s.phase == Reading && s.workers > 0))
      && R.Enabled(s.rx, r)
      && match r
         case ReadCompletes(k, bytes) => bytes != []
         case BeginChainedRead(_, _, _) => false
         case BeginReadSome(_) => false
         case _ => true
  }

  /** What the application hears of a step of the read buffer that led to `rx`. */
  function Notices(r: R.Event, rx: R.Rx): seq<Notice> {
    match r
    case ReadCompletes(_, _) => [DataBegins(rx.size)]
    case CallbackReturns(_) => [DataEnds]
    case CallbackThrows => [DataThrows]
    case ReadFails(_) => [IoError]
    case _ => []
  }

  function Step(s: Conn, e: Event): Conn
    requires Enabled(s, e)
  {
    match e
    case AsyncConnect => s.(phase := Connecting)
    case ConnectFails => s.(phase := Failed, trace := s.trace + [ConnectError])
    case ConnectSucceeds(chunk, block) =>
      var rx := R.Step(s.rx, R.BeginChainedRead(chunk, true, block));
      s.(rx := rx, phase := if s.rx.chained || R.Exceeds(rx) then Aborted else Reading)
    case ConnectCallback => s.(phase := Running, trace := s.trace + [Connected])
    case Read(r) =>
      var rx := R.Step(s.rx, r);
      s.(rx := rx, trace := s.trace + Notices(r, rx))
  }

  /** `after` is what event `e` makes of `before`. */
  predicate Takes(before: Conn, e: Event, after: Conn) {
    Enabled(before, e) && after == Step(before, e)
  }

  /** Where an application that follows the protocol stands; `Bad` once it was broken. */
  datatype Expect = Start | Up | InData | Done | Bad

  /** Either one connect error alone; or connected, then data notifications that never nest, then at
  most one error; nothing follows an error or a callback that threw. */
  function Next(q: Expect, n: Notice): Expect {
    match (q, n)
    case (Start, ConnectError) => Done
    case (Start, Connected) => Up
    case (Up, DataBegins(_)) => InData
    case (Up, IoError) => Done
    case (InData, DataEnds) => Up
    case (InData, DataThrows) => Done
    case _ => Bad
  }

  function After(trace: seq<Notice>): Expect {
    if trace == [] then Start else Next(After(trace[..|trace| - 1]), trace[|trace| - 1])
  }

  lemma AfterOneMore(trace: seq<Notice>, n: Notice)
    ensures After(trace + [n]) == Next(After(trace), n)
  {
    assert (trace + [n])[..|trace|] == trace;
  }

  /** Where a connection in this state should stand. */
  predicate Agrees(s: Conn, q: Expect) {
    match s.phase
    case Failed => q == Done
    case Running =>
      if s.rx.hasContext then q == InData
      else if s.rx.pending != [] then q == Up
      else q == Up || q == Done
    case _ => q == Start
  }

  ghost predicate Inv(s: Conn) {
    && R.Inv(s.rx)
    && (s.phase.Idle? || s.phase.Connecting? || s.phase.Failed? ==> !s.rx.chained)
    && (After(s.trace) == Bad || Agrees(s, After(s.trace)))
    && (After(s.trace) != Bad && s.phase.Reading? ==> s.rx.pending != [])
  }

  /** A completion dispatched in front of the connect callback. */
  predicate Early(s: Conn, e: Event) {
    s.phase == Reading && IsCompletion(e)
  }

  lemma DataKeepsInv(s: Conn, k: nat, bytes: seq<byte>)
    requires Inv(s) && Enabled(s, Read(R.ReadCompletes(k, bytes)))
    ensures var t := Step(s, Read(R.ReadCompletes(k, bytes)));
            && Inv(t)
            && (After(t.trace) == Bad <==> After(s.trace) == Bad || s.phase == Reading)
  {
    R.CompletionKeepsInv(s.rx, k, bytes);
    AfterOneMore(s.trace, DataBegins(s.rx.size + |bytes|));
  }

  lemma FailureKeepsInv(s: Conn, k: nat)
    requires Inv(s) && Enabled(s, Read(R.ReadFails(k)))
    ensures var t := Step(s, Read(R.ReadFails(k)));
            && Inv(t)
            && (After(t.trace) == Bad <==> After(s.trace) == Bad || s.phase == Reading)
  {
    R.StepKeepsInv(s.rx, R.ReadFails(k));
    AfterOneMore(s.trace, IoError);
  }

  lemma ReadKeepsInv(s: Conn, r: R.Event)
    requires Inv(s) && Enabled(s, Read(r)) && !IsCompletion(Read(r))
    ensures Inv(Step(s, Read(r)))
    ensures After(Step(s, Read(r)).trace) == Bad <==> After(s.trace) == Bad
  {
    R.StepKeepsInv(s.rx, r);
    match r
    case CallbackReturns(_) => AfterOneMore(s.trace, DataEnds);
    case CallbackThrows => AfterOneMore(s.trace, DataThrows);
    case Consume(_) => assert s.trace + [] == s.trace;
  }

  lemma StartingKeepsInv(s: Conn, chunk: nat, block: seq<byte>)
    requires Inv(s) && Enabled(s, ConnectSucceeds(chunk, block))
    ensures Inv(Step(s, ConnectSucceeds(chunk, block)))
  {
    R.BeginKeepsInv(s.rx, R.BeginChainedRead(chunk, true, block));
  }

  lemma ConnectKeepsInv(s: Conn, e: Event)
    requires Inv(s) && Enabled(s, e) && (e.AsyncConnect? || e.ConnectFails? || e.ConnectCallback?)
    ensures Inv(Step(s, e))
    ensures After(Step(s, e).trace) == Bad <==> After(s.trace) == Bad
  {
    match e
    case AsyncConnect =>
    case ConnectFails => AfterOneMore(s.trace, ConnectError);
    case ConnectCallback => AfterOneMore(s.trace, Connected);
  }

  /** A step breaks the protocol exactly when it dispatches a completion too early. */
  lemma StepKeepsInv(s: Conn, e: Event)
    requires Inv(s) && Enabled(s, e)
    ensures Inv(Step(s, e))
    ensures After(Step(s, e).trace) == Bad <==> After(s.trace) == Bad || Early(s, e)
  {
    match e
    case Read(r) =>
      match r {
        case ReadCompletes(k, bytes) => DataKeepsInv(s, k, bytes);
        case ReadFails(k) => FailureKeepsInv(s, k);
        case _ => ReadKeepsInv(s, r);
      }
    case ConnectSucceeds(chunk, block) => StartingKeepsInv(s, chunk, block);
    case _ => ConnectKeepsInv(s, e);
  }

  /** From `before` to `after` the application heard exactly one notice of a read: an error, or how many
  bytes are available, which is everything received and not consumed; and it was in order unless the
  connect callback has not run, or an earlier notice was not. */
  ghost predicate Notifies(before: Conn, after: Conn, failed: bool) {
    && |after.rx.consumed| <= |after.rx.received|
    && after.trace == before.trace + [if failed then IoError else DataBegins(|after.rx.received| - |after.rx.consumed|)]
    && (After(after.trace) == Bad <==> After(before.trace) == Bad || before.phase == Reading)
  }

  lemma AnnouncesAvailable(s: Conn, k: nat, bytes: seq<byte>)
    requires Inv(s) && Enabled(s, Read(R.ReadCompletes(k, bytes)))
    ensures Notifies(s, Step(s, Read(R.ReadCompletes(k, bytes))), false)
  {
    var t := Step(s, Read(R.ReadCompletes(k, bytes)));
    assert t.rx.size == |t.rx.received| - |t.rx.consumed| by { R.ConsumedExactly(s.rx, R.ReadCompletes(k, bytes)); }
    assert After(t.trace) == Bad <==> After(s.trace) == Bad || s.phase == Reading by { DataKeepsInv(s, k, bytes); }
  }

  lemma ReportsFailure(s: Conn, k: nat)
    requires Inv(s) && Enabled(s, Read(R.ReadFails(k)))
    ensures Notifies(s, Step(s, Read(R.ReadFails(k))), true)
  {
    var t := Step(s, Read(R.ReadFails(k)));
    assert |t.rx.consumed| <= |t.rx.received| by { R.ConsumedExactly(s.rx, R.ReadFails(k)); }
    assert After(t.trace) == Bad <==> After(s.trace) == Bad || s.phase == Reading by { FailureKeepsInv(s, k); }
  }

  lemma ReachableInv(limit: nat, workers: nat, es: seq<Event>)
    requires Feasible(Step, Init(limit, workers), es)
    ensures Inv(Run(Step, Init(limit, workers), es))
  {
    forall t, e | Inv(t) && Enabled(t, e) ensures Inv(Step(t, e)) {
      StepKeepsInv(t, e);
    }
    Preserved(Step, Inv, Init(limit, workers), es);
  }

  lemma NoticesStay(s: Conn, es: seq<Event>)
    requires Feasible(Step, s, es)
    ensures s.trace <= Run(Step, s, es).trace
  {
    forall t: Conn, e | s.trace <= t.trace && Enabled(t, e) ensures s.trace <= Step(t, e).trace {
    }
    Preserved(Step, (t: Conn) => s.trace <= t.trace, s, es);
  }

  /** So in every run, wherever a data completion happened in it, its notice tells how many bytes had been
  received and not consumed by then. */
  lemma AnnouncedInRun(limit: nat, workers: nat, es: seq<Event>, k: nat, bytes: seq<byte>, fs: seq<Event>)
    requires var s := Init(limit, workers);
             && Feasible(Step, s, es) && Enabled(Run(Step, s, es), Read(R.ReadCompletes(k, bytes)))
             && Feasible(Step, Step(Run(Step, s, es), Read(R.ReadCompletes(k, bytes))), fs)
    ensures var before := Run(Step, Init(limit, workers), es);
            var after := Step(before, Read(R.ReadCompletes(k, bytes)));
            && |before.trace| < |Run(Step, after, fs).trace| && |after.rx.consumed| <= |after.rx.received|
            && Run(Step, after, fs).trace[|before.trace|] == DataBegins(|after.rx.received| - |after.rx.consumed|)
  {
    ReachableInv(limit, workers, es);
    var before := Run(Step, Init(limit, workers), es);
    AnnouncesAvailable(before, k, bytes);
    NoticesStay(Step(before, Read(R.ReadCompletes(k, bytes))), fs);
  }

  /** Some completion among `es` comes before the connect callback. */
  predicate Overtaken(es: seq<Event>) {
    es != [] && !es[0].ConnectCallback? && (IsCompletion(es[0]) || Overtaken(es[1..]))
  }

  predicate BeforeConnected(s: Conn) {
    s.phase.Idle? || s.phase.Connecting? || s.phase.Reading?
  }

  lemma {:induction false} TraceFrom(s: Conn, es: seq<Event>)
    requires Inv(s) && Feasible(Step, s, es)
    ensures After(Run(Step, s, es).trace) == Bad <==>
            After(s.trace) == Bad || (BeforeConnected(s) && Overtaken(es))
    decreases |es|
  {
    if es != [] {
      var e, t := es[0], Step(s, es[0]);
      StepKeepsInv(s, e);
      TraceFrom(t, es[1..]);
      if t.phase == Aborted {
        NothingFollowsAbort(t, es[1..]);
      } else if t.phase == Failed {
        NothingFollowsAbort(t, es[1..]);
      }
    }
  }

  lemma NothingFollowsAbort(s: Conn, es: seq<Event>)
    requires (s.phase == Aborted || s.phase == Failed) && Feasible(Step, s, es)
    ensures es == []
  {
    assert forall e :: !Enabled(s, e);
  }

  /** In every run the notifications follow the protocol exactly when no read completion was
  dispatched in front of the connect callback. */
  lemma ProtocolExactly(limit: nat, workers: nat, es: seq<Event>)
    requires Feasible(Step, Init(limit, workers), es)
    ensures After(Run(Step, Init(limit, workers), es).trace) != Bad <==> !Overtaken(es)
  {
    TraceFrom(Init(limit, workers), es);
  }

  /** No completion can be dispatched early: there is no other thread, or no room to read at all. */
  predicate CannotOvertake(s: Conn) {
    s.workers == 0 || (s.rx.limit <= 1 && !s.phase.Reading?)
  }

  lemma {:induction false} NeverOvertaken(s: Conn, es: seq<Event>)
    requires CannotOvertake(s) && Feasible(Step, s, es) && (BeforeConnected(s) || s.phase == Aborted || s.phase == Failed)
    ensures !Overtaken(es)
    decreases |es|
  {
    if es != [] && !es[0].ConnectCallback? {
      NeverOvertaken(Step(s, es[0]), es[1..]);
    }
  }

  /** With a pool thread, data can be announced on a connection the application has not been told
  about yet. */
  lemma WorkerCanOvertake(limit: nat, workers: nat) returns (es: seq<Event>)
    requires workers > 0 && limit > 1
    ensures Feasible(Step, Init(limit, workers), es)
    ensures Run(Step, Init(limit, workers), es).trace == [DataBegins(1)] && Accepting(es)
  {
    var begin := ConnectSucceeds(1, [0]);
    var data := Read(R.ReadCompletes(0, [0]));
    var s1 := Step(Init(limit, workers), AsyncConnect);
    var s2 := Step(s1, begin);
    var s3 := Step(s2, data);
    assert s3.trace == [DataBegins(1)];
    assert Feasible(Step, s3, []);
    Cons(Step, s2, data, []);
    Cons(Step, s1, begin, [data] + []);
    Cons(Step, Init(limit, workers), AsyncConnect, [begin] + ([data] + []));
    es := [AsyncConnect] + ([begin] + ([data] + []));
  }

  /** Every run follows the protocol exactly when there are no pool threads, or `max_size` leaves no room
  for a single byte. */
  lemma ProtocolAlwaysExactly(limit: nat, workers: nat)
    ensures (forall es | Feasible(Step, Init(limit, workers), es) :: After(Run(Step, Init(limit, workers), es).trace) != Bad)
            <==> workers == 0 || limit <= 1
  {
    if workers == 0 || limit <= 1 {
      forall es | Feasible(Step, Init(limit, workers), es)
        ensures After(Run(Step, Init(limit, workers), es).trace) != Bad
      {
        NeverOvertaken(Init(limit, workers), es);
        ProtocolExactly(limit, workers, es);
      }
    } else {
      var es := WorkerCanOvertake(limit, workers);
      assert [DataBegins(1)][..0] == [];
    }
  }

  /** No connect fails: what is left are the runs of a connection accepted by a server. */
  predicate Accepting(es: seq<Event>) {
    forall e | e in es :: !e.ConnectFails?
  }

  /** A server too announces data of a connection before its accept callback in some run, exactly when
  there is a pool thread and room for a byte. */
  lemma AcceptedAlwaysExactly(limit: nat, workers: nat)
    ensures (forall es | Feasible(Step, Init(limit, workers), es) && Accepting(es) ::
               After(Run(Step, Init(limit, workers), es).trace) != Bad)
            <==> workers == 0 || limit <= 1
  {
    if workers == 0 || limit <= 1 {
      ProtocolAlwaysExactly(limit, workers);
    } else {
      var es := WorkerCanOvertake(limit, workers);
      assert [DataBegins(1)][..0] == [];
    }
  }

  /** A read fails, a callback throws, or the next chunk would exceed `max_size`. */
  predicate Interrupts(s: Conn, e: Event) {
    e.Read? && (e.e.ReadFails? || e.e.CallbackThrows? || (e.e.CallbackReturns? && R.Exceeds(s.rx)))
  }

  /** Nothing in this run interrupts the reading. */
  ghost predicate Uninterrupted(s: Conn, es: seq<Event>)
    requires Feasible(Step, s, es)
    decreases |es|
  {
    es == [] || (!Interrupts(s, es[0]) && Uninterrupted(Step(s, es[0]), es[1..]))
  }

  predicate Started(s: Conn) {
    s.phase == Reading || s.phase == Running
  }

  lemma {:induction false} ReadsUntilInterrupted(s: Conn, es: seq<Event>)
    requires Inv(s) && (Started(s) ==> R.Active(s.rx)) && Feasible(Step, s, es)
    requires Uninterrupted(s, es)
    ensures Started(Run(Step, s, es)) ==> R.Active(Run(Step, s, es).rx)
    decreases |es|
  {
    if es != [] {
      StepKeepsInv(s, es[0]);
      if es[0].Read? {
        R.ChainStaysActive(s.rx, es[0].e);
      }
      ReadsUntilInterrupted(Step(s, es[0]), es[1..]);
    }
  }

  /** Once the chained read has started, a read is outstanding or being handled in every run in which
  nothing interrupts the reading. */
  lemma ReadAlwaysOutstanding(limit: nat, workers: nat, es: seq<Event>)
    requires Feasible(Step, Init(limit, workers), es) && Uninterrupted(Init(limit, workers), es)
    ensures var s := Run(Step, Init(limit, workers), es);
            Started(s) ==> s.rx.pending != [] || s.rx.hasContext
  {
    ReadsUntilInterrupted(Init(limit, workers), es);
  }
}
