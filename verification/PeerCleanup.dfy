/** What becomes of a server's connection whose socket was closed, by an incomplete write for example
(IoServices/TcpPeerConnection.cpp:154-161): the code leaves the cleaning up to the read callback.  This
machine is the server's peer list together with one connection's write queue and read chain. */
module PeerCleanup {
  import opened Bytes
  import opened Runs
  import opened IoBufferWrapper
  import B = BroadcastProtocol
  import W = WriteProtocol
  import R = ReceiveProtocol

  datatype Link = Link(
    id: nat,                 // the connection
    server: B.Server<nat>,
    tx: W.Tx,
    rx: R.Rx,
    reported: nat)           // errors its read handler passed to the error handler

  datatype Event =
    | Accepts(chunk: nat, block: seq<byte>)   // the connection is accepted and starts reading
    | Serves(b: B.Event<nat>)                 // anything else of the server, or of other connections
    | Transfers(k: nat, n: nat)
    | WriteCompletes(k: nat)
    | Reads(r: R.Event)
    | ReadFails(k: nat, error: bool)          // without an error code if the peer only stopped sending

  function Init(id: nat, limit: nat): Link {
    Link(id, B.Init(), W.Init(), R.Init(limit), 0)
  }

  /** The read chain is driven by its completions alone. */
  predicate IsReading(r: R.Event) {
    match r
    case ReadCompletes(k, bytes) => bytes != []
    case Consume(_) => true
    case CallbackReturns(_) => true
    case CallbackThrows => true
    case _ => false
  }

  predicate Enabled(s: Link, e: Event) {
    match e
    case Accepts(chunk, block) =>
      B.Enabled(s.server, B.Accepts(s.id)) && !s.rx.chained && R.Enabled(s.rx, R.BeginChainedRead(chunk, true, block))
    case Serves(b) =>
      B.Enabled(s.server, b) && b != B.Accepts(s.id) && !(b.HandlesError? && b.id == s.id)
    case Transfers(k, n) => s.id in s.server.conns && W.Enabled(s.tx, W.Transfer(k, n))
    case WriteCompletes(k) => s.id in s.server.conns && W.Enabled(s.tx, W.WriteCompletes(k))
    case Reads(r) => s.id in s.server.conns && IsReading(r) && R.Enabled(s.rx, r)
    case ReadFails(k, _) => s.id in s.server.conns && R.Enabled(s.rx, R.ReadFails(k))
  }

  /** What an event of the server does to the connection's write queue. */
  function Write(s: Link, b: B.Event<nat>): W.Tx {
    match b
    case Broadcast(msg) => if s.id in s.server.peers then W.Step(s.tx, W.AsyncWrite(msg)) else s.tx
    case WritesTo(id, msg) => if id == s.id then W.Step(s.tx, W.AsyncWrite(msg)) else s.tx
    case SocketCloses(id) => if id == s.id then W.Step(s.tx, W.Close) else s.tx
    case CloseAll => if s.id in s.server.peers then W.Step(s.tx, W.Close) else s.tx
    case _ => s.tx
  }

  function Step(s: Link, e: Event): Link
    requires Enabled(s, e)
  {
    match e
    case Accepts(chunk, block) =>
      var rx := R.Step(s.rx, R.BeginChainedRead(chunk, true, block));
      // a chunk past max_size throws before the server knows the connection
      if R.Exceeds(rx) then s.(rx := rx) else s.(rx := rx, server := B.Step(s.server, B.Accepts(s.id)))
    case Serves(b) => s.(server := B.Step(s.server, b), tx := Write(s, b))
    case Transfers(k, n) => s.(tx := W.Step(s.tx, W.Transfer(k, n)))
    case WriteCompletes(k) =>
      var tx := W.Step(s.tx, W.WriteCompletes(k));
      if tx.isOpen then s.(tx := tx) else s.(tx := tx, server := B.Step(s.server, B.SocketCloses(s.id)))
    case Reads(r) => s.(rx := R.Step(s.rx, r))
    case ReadFails(k, error) =>
      s.(rx := R.Step(s.rx, R.ReadFails(k)), reported := s.reported + 1,
         server := B.Step(s.server, B.HandlesError(s.id, error)),
         tx := if error then W.Step(s.tx, W.Close) else s.tx)
  }

  /** The server's record of the connection agrees with its write queue. */
  predicate Matches(p: B.Peer, tx: W.Tx) {
    p.isOpen == tx.isOpen && B.Messages(p.history) == tx.enqueued
  }

  /** The server's record is right, and the connection reads once it is known. */
  ghost predicate Inv(s: Link) {
    && B.Inv(s.server) && W.Inv(s.tx) && R.Inv(s.rx) && R.FitsWhenEmpty(s.rx)
    && (s.id in s.server.conns ==> s.rx.chained && Matches(s.server.conns[s.id], s.tx))
    && (s.id !in s.server.conns ==> s.tx == W.Init())
  }

  lemma WriteKeepsInv(s: Link, b: B.Event<nat>)
    requires W.Inv(s.tx)
    ensures W.Inv(Write(s, b))
  {
    match b
    case Broadcast(msg) => W.StepKeepsInv(s.tx, W.AsyncWrite(msg));
    case WritesTo(id, msg) => W.StepKeepsInv(s.tx, W.AsyncWrite(msg));
    case SocketCloses(id) => W.StepKeepsInv(s.tx, W.Close);
    case CloseAll => W.StepKeepsInv(s.tx, W.Close);
    case _ =>
  }

  lemma WriteMatches(p: B.Peer, tx: W.Tx, msg: Message, broadcast: bool)
    requires Matches(p, tx)
    ensures Matches(B.Enqueue(p, msg, broadcast), W.Step(tx, W.AsyncWrite(msg)))
  {
    assert B.Messages(B.Enqueue(p, msg, broadcast).history) == B.Messages(p.history) + [msg];
  }

  /** The server's record changes as the write queue does. */
  lemma ServesMatches(s: Link, b: B.Event<nat>)
    requires Inv(s) && Enabled(s, Serves(b)) && s.id in s.server.conns
    ensures s.id in B.Step(s.server, b).conns && Matches(B.Step(s.server, b).conns[s.id], Write(s, b))
  {
    if b.Broadcast? || b.WritesTo? {
      WriteMatches(s.server.conns[s.id], s.tx, b.msg, b.Broadcast?);
    }
  }

  lemma ServesKeepsInv(s: Link, b: B.Event<nat>)
    requires Inv(s) && Enabled(s, Serves(b))
    ensures Inv(Step(s, Serves(b)))
  {
    assert B.Inv(B.Step(s.server, b)) by { B.StepKeepsInv(s.server, b); }
    assert W.Inv(Write(s, b)) by { WriteKeepsInv(s, b); }
    if s.id in s.server.conns {
      ServesMatches(s, b);
    }
  }

  lemma CompletionKeepsInv(s: Link, k: nat)
    requires Inv(s) && Enabled(s, WriteCompletes(k))
    ensures Inv(Step(s, WriteCompletes(k)))
  {
    var tx := W.Step(s.tx, W.WriteCompletes(k));
    assert W.Inv(tx) && (tx.isOpen ==> s.tx.isOpen) by { W.StepKeepsInv(s.tx, W.WriteCompletes(k)); }
    B.StepKeepsInv(s.server, B.SocketCloses(s.id));
  }

  lemma FailureKeepsInv(s: Link, k: nat, error: bool)
    requires Inv(s) && Enabled(s, ReadFails(k, error))
    ensures Inv(Step(s, ReadFails(k, error)))
  {
    assert R.Inv(R.Step(s.rx, R.ReadFails(k))) by { R.StepKeepsInv(s.rx, R.ReadFails(k)); }
    assert W.Inv(W.Step(s.tx, W.Close)) by { W.StepKeepsInv(s.tx, W.Close); }
    B.StepKeepsInv(s.server, B.HandlesError(s.id, error));
  }

  lemma StepKeepsInv(s: Link, e: Event)
    requires Inv(s) && Enabled(s, e)
    ensures Inv(Step(s, e))
  {
    match e
    case Accepts(chunk, block) =>
      R.StepKeepsInv(s.rx, R.BeginChainedRead(chunk, true, block));
      B.StepKeepsInv(s.server, B.Accepts(s.id));
    case Serves(b) => ServesKeepsInv(s, b);
    case Transfers(k, n) => W.StepKeepsInv(s.tx, W.Transfer(k, n));
    case WriteCompletes(k) => CompletionKeepsInv(s, k);
    case Reads(r) => R.StepKeepsInv(s.rx, r);
    case ReadFails(k, error) => FailureKeepsInv(s, k, error);
  }

  lemma ReachableInv(id: nat, limit: nat, es: seq<Event>)
    requires Feasible(Step, Init(id, limit), es)
    ensures Inv(Run(Step, Init(id, limit), es)) && Run(Step, Init(id, limit), es).id == id
  {
    var inv := (s: Link) => Inv(s) && s.id == id;
    forall s, e | inv(s) && Enabled(s, e) ensures inv(Step(s, e)) {
      StepKeepsInv(s, e);
    }
    Preserved(Step, inv, Init(id, limit), es);
  }

  /** In some continuation the connection's own read chain reports an error, and the connection is off
  the list. */
  ghost predicate CanCleanUp(s: Link) {
    exists es :: Feasible(Step, s, es) && Run(Step, s, es).reported > s.reported
              && s.id !in Run(Step, s, es).server.peers
  }

  lemma OutstandingReadCleansUp(s: Link) returns (e: Event)
    requires Inv(s) && s.id in s.server.conns && s.rx.pending != []
    ensures Enabled(s, e) && Step(s, e).reported > s.reported && s.id !in Step(s, e).server.peers
  {
    e := ReadFails(0, true);
    assert s.id !in B.Step(s.server, B.HandlesError(s.id, true)).peers by { B.PurgeLeavesOpen(s.server, s.id); }
  }

  /** The running callback consumes everything and returns, so a read is outstanding again. */
  lemma CallbackReadsOn(s: Link) returns (es: seq<Event>)
    requires Inv(s) && s.id in s.server.conns && s.rx.hasContext
    ensures Feasible(Step, s, es)
    ensures var t := Run(Step, s, es);
            Inv(t) && t.rx.pending != [] && t.server == s.server && t.reported == s.reported && t.id == s.id
  {
    var drain := Reads(R.Consume(s.rx.size));
    var t := Step(s, drain);
    StepKeepsInv(s, drain);
    var back := Reads(R.CallbackReturns(seq(s.rx.chunk, i => 0)));
    StepKeepsInv(t, back);
    assert Feasible(Step, Step(t, back), []);
    Cons(Step, t, back, []);
    Cons(Step, s, drain, [back] + []);
    es := [drain] + ([back] + []);
  }

  /** A connection that does not read will never report. */
  lemma IdleNeverReports(s: Link, es: seq<Event>)
    requires s.rx.chained && !R.Active(s.rx) && Feasible(Step, s, es)
    ensures Run(Step, s, es).reported == s.reported && Run(Step, s, es).rx == s.rx
  {
    var inv := (t: Link) => t.rx == s.rx && t.reported == s.reported;
    forall t, e | inv(t) && Enabled(t, e) ensures inv(Step(t, e)) {
    }
    Preserved(Step, inv, s, es);
  }

  /** In every reachable state, whatever closed the socket: the connection can still report its error
  and be taken off the list by it exactly when a read is outstanding or being handled.  After a callback
  that threw it never is. */
  lemma CleanedUpExactly(id: nat, limit: nat, es: seq<Event>)
    requires Feasible(Step, Init(id, limit), es) && id in Run(Step, Init(id, limit), es).server.conns
    ensures var s := Run(Step, Init(id, limit), es);
            CanCleanUp(s) <==> R.Active(s.rx)
  {
    ReachableInv(id, limit, es);
    var s := Run(Step, Init(id, limit), es);
    if R.Active(s.rx) {
      var fs: seq<Event> := [];
      if s.rx.hasContext {
        fs := CallbackReadsOn(s);
      }
      var t := Run(Step, s, fs);
      var e := OutstandingReadCleansUp(t);
      assert Feasible(Step, Step(t, e), []);
      Cons(Step, t, e, []);
      Concat(Step, s, fs, [e] + []);
    } else {
      forall fs | Feasible(Step, s, fs) ensures Run(Step, s, fs).reported == s.reported {
        IdleNeverReports(s, fs);
      }
    }
  }

  /** Another connection's error is handled. */
  predicate IsPurge(e: Event) {
    e.Serves? && e.b.HandlesError? && e.b.error
  }

  predicate Purges(es: seq<Event>) {
    es != [] && (IsPurge(es[0]) || Purges(es[1..]))
  }

  lemma IdleStep(s: Link, e: Event)
    requires Inv(s) && Enabled(s, e) && s.id in s.server.peers && !s.tx.isOpen && !R.Active(s.rx)
    ensures var t := Step(s, e);
            && !t.tx.isOpen && !R.Active(t.rx) && t.id == s.id
            && (s.id in t.server.peers <==> !IsPurge(e))
            && (IsPurge(e) ==> B.Removed(t.server, s.id))
  {
    if e.Serves? && e.b.HandlesError? {
      B.OpenOnlyKeeps(s.server.peers, B.Closed(s.server.conns, {e.b.id}));
      assert B.PeerInv(s.server, s.id);
    }
  }

  lemma RemovedForGood(s: Link, es: seq<Event>)
    requires B.Removed(s.server, s.id) && Feasible(Step, s, es)
    ensures s.id !in Run(Step, s, es).server.peers
  {
    var inv := (t: Link) => t.id == s.id && B.Removed(t.server, s.id);
    forall t, e | inv(t) && Enabled(t, e) ensures inv(Step(t, e)) {
      match e
      case Serves(b) => B.RemovedStays(t.server, s.id, b);
      case WriteCompletes(k) => B.RemovedStays(t.server, s.id, B.SocketCloses(t.id));
      case ReadFails(k, error) => B.RemovedStays(t.server, s.id, B.HandlesError(t.id, error));
      case _ =>
    }
    Preserved(Step, inv, s, es);
  }

  /** A listed connection that is closed and does not read, as an incomplete write after a throwing
  callback leaves it, stays on the list until another connection's error is handled, and no longer. */
  lemma {:induction false} IdlePeerLeavesExactly(s: Link, es: seq<Event>)
    requires Inv(s) && s.id in s.server.peers && !s.tx.isOpen && !R.Active(s.rx) && Feasible(Step, s, es)
    ensures s.id in Run(Step, s, es).server.peers <==> !Purges(es)
    decreases |es|
  {
    if es != [] {
      var t := Step(s, es[0]);
      StepKeepsInv(s, es[0]);
      IdleStep(s, es[0]);
      if IsPurge(es[0]) {
        RemovedForGood(t, es[1..]);
      } else {
        IdlePeerLeavesExactly(t, es[1..]);
      }
    }
  }
}
