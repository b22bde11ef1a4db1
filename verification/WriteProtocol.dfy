/** The write queue as a machine over values (IoServices/TcpPeerConnection.cpp:48-82, 104-134, 147-181):
`AsyncWrite` queues a message and launches it when it is alone; a write completion drops the front
and launches the next one; an incomplete write closes the socket and launches nothing. */
module WriteProtocol {
  import opened Bytes
  import opened Runs
  import opened IoBufferWrapper

  /** A write held by the I/O service, and how many of its bytes reached the wire so far. */
  datatype Flight = Flight(msg: Message, sent: nat)

  datatype Tx = Tx(
    queue: seq<Message>,
    inFlight: seq<Flight>,    // outstanding writes
    isOpen: bool,
    enqueued: seq<Message>,   // everything passed to AsyncWrite
    completed: seq<Message>,  // everything popped after a complete write
    wire: seq<byte>,          // everything that reached the wire
    launched: nat)            // how many writes were ever launched

  datatype Event =
    | AsyncWrite(msg: Message)
    | Transfer(k: nat, n: nat)   // n more bytes of write k reach the wire
    | WriteCompletes(k: nat)     // write k completes, reporting the bytes that reached the wire
    | Close                      // the application or an error handler closes the socket

  function Init(): Tx {
    Tx([], [], true, [], [], [], 0)
  }

  function LaunchWrite(s: Tx): Tx
    requires s.queue != []
  {
    s.(inFlight := s.inFlight + [Flight(s.queue[0], 0)], launched := s.launched + 1)
  }

  /** The queue length `AsyncWrite` returns. */
  function Backlog(s: Tx): nat {
    |s.queue|
  }

  predicate Enabled(s: Tx, e: Event) {
    match e
    case AsyncWrite(msg) => true
    case Transfer(k, n) =>
      s.isOpen && k < |s.inFlight| && s.inFlight[k].sent + n <= |Encode(s.inFlight[k].msg)|
    case WriteCompletes(k) => k < |s.inFlight|
    case Close => true
  }

  function Step(s: Tx, e: Event): Tx
    requires Enabled(s, e)
  {
    match e
    case AsyncWrite(msg) =>
      var r := s.(queue := s.queue + [msg], enqueued := s.enqueued + [msg]);
      if |r.queue| > 1 then r else LaunchWrite(r)
    case Transfer(k, n) =>
      var f := s.inFlight[k];
      if f.sent + n > |Encode(f.msg)| then s else
        s.(inFlight := s.inFlight[k := f.(sent := f.sent + n)],
           wire := s.wire + Encode(f.msg)[f.sent..f.sent + n])
    case WriteCompletes(k) =>
      var f := s.inFlight[k];
      var r := s.(inFlight := s.inFlight[..k] + s.inFlight[k + 1..]);
      if f.sent != Wrap(f.msg).BoostSize() then
        r.(isOpen := false)
      else if r.queue == [] then
        r
      else
        var popped := r.(queue := r.queue[1..], completed := r.completed + [r.queue[0]]);
        if popped.queue == [] then popped else LaunchWrite(popped)
    case Close => s.(isOpen := false)
  }

  /** `after` is what event `e` makes of `before`. */
  predicate Takes(before: Tx, e: Event, after: Tx) {
    Enabled(before, e) && after == Step(before, e)
  }

  /** A message waits and nothing is writing it. */
  predicate Frozen(s: Tx) {
    s.queue != [] && s.inFlight == []
  }

  /** How far the front message got. */
  ghost predicate FrontSent(s: Tx, sent: nat) {
    && s.queue != [] && sent <= |Encode(s.queue[0])|
    && s.wire == Stream(s.completed) + Encode(s.queue[0])[..sent]
  }

  /** What holds between any two events. */
  ghost predicate Inv(s: Tx) {
    && s.enqueued == s.completed + s.queue
    && |s.inFlight| <= 1
    && s.launched == |s.completed| + (if s.queue == [] then 0 else 1)
    && (s.queue == [] ==> s.inFlight == [] && s.wire == Stream(s.completed))
    && (s.inFlight != [] ==> s.queue != [] && s.inFlight[0].msg == s.queue[0] && FrontSent(s, s.inFlight[0].sent))
    && (Frozen(s) ==> !s.isOpen && exists sent: nat | sent < |Encode(s.queue[0])| :: FrontSent(s, sent))
  }

  lemma TransferKeepsInv(s: Tx, k: nat, n: nat)
    requires Inv(s) && Enabled(s, Transfer(k, n))
    ensures Inv(Step(s, Transfer(k, n)))
  {
    var f := s.inFlight[k];
    var enc := Encode(f.msg);
    assert enc[..f.sent + n] == enc[..f.sent] + enc[f.sent..f.sent + n];
    assert Stream(s.completed) + (enc[..f.sent] + enc[f.sent..f.sent + n])
        == (Stream(s.completed) + enc[..f.sent]) + enc[f.sent..f.sent + n];
  }

  lemma CompletionKeepsInv(s: Tx, k: nat)
    requires Inv(s) && Enabled(s, WriteCompletes(k))
    ensures Inv(Step(s, WriteCompletes(k)))
  {
    var f := s.inFlight[k];
    var r := Step(s, WriteCompletes(k));
    assert s.inFlight == [f];
    if f.sent != Wrap(f.msg).BoostSize() {
      assert FrontSent(r, f.sent);
    } else {
      StreamConcat(s.completed, [s.queue[0]]);
      StreamOne(s.queue[0]);
      assert Encode(f.msg)[..f.sent] == Encode(f.msg);
      assert s.completed + s.queue == s.completed + [s.queue[0]] + s.queue[1..];
      if r.queue != [] {
        assert FrontSent(r, 0) by { assert Stream(r.completed) + Encode(r.queue[0])[..0] == Stream(r.completed); }
      }
    }
  }

  lemma StepKeepsInv(s: Tx, e: Event)
    requires Inv(s) && Enabled(s, e)
    ensures Inv(Step(s, e))
  {
    match e
    case AsyncWrite(msg) =>
      var r := Step(s, e);
      assert (s.completed + s.queue) + [msg] == s.completed + (s.queue + [msg]);
      if s.queue == [] {
        assert Stream(r.completed) + Encode(msg)[..0] == Stream(r.completed);
      } else if Frozen(s) {
        var sent: nat :| sent < |Encode(s.queue[0])| && FrontSent(s, sent);
        assert FrontSent(r, sent);
      }
    case Transfer(k, n) => TransferKeepsInv(s, k, n);
    case WriteCompletes(k) => CompletionKeepsInv(s, k);
    case Close =>
      if Frozen(s) {
        var sent: nat :| sent < |Encode(s.queue[0])| && FrontSent(s, sent);
        assert FrontSent(Step(s, e), sent);
      }
  }

  lemma ReachableInv(es: seq<Event>)
    requires Feasible(Step, Init(), es)
    ensures Inv(Run(Step, Init(), es))
  {
    forall t, e | Inv(t) && Enabled(t, e) ensures Inv(Step(t, e)) {
      StepKeepsInv(t, e);
    }
    Preserved(Step, Inv, Init(), es);
  }

  /** The messages that the `AsyncWrite` calls among `es` passed, in call order. */
  function Sent(es: seq<Event>): seq<Message> {
    if es == [] then [] else SentBy(es[0]) + Sent(es[1..])
  }

  function SentBy(e: Event): seq<Message> {
    if e.AsyncWrite? then [e.msg] else []
  }

  lemma StepEnqueues(s: Tx, e: Event)
    requires Enabled(s, e)
    ensures Step(s, e).enqueued == s.enqueued + SentBy(e)
  {
  }

  lemma {:induction false} EnqueuedIsSent(s: Tx, es: seq<Event>)
    requires Feasible(Step, s, es)
    ensures Run(Step, s, es).enqueued == s.enqueued + Sent(es)
    decreases |es|
  {
    if es != [] {
      StepEnqueues(s, es[0]);
      EnqueuedIsSent(Step(s, es[0]), es[1..]);
      AppendAssociative(s.enqueued, SentBy(es[0]), Sent(es[1..]));
    }
  }

  /** Bytes on the wire stay there; only a transfer adds some. */
  lemma WireGrows(s: Tx, e: Event)
    requires Enabled(s, e)
    ensures s.wire <= Step(s, e).wire && (!e.Transfer? ==> Step(s, e).wire == s.wire)
  {
  }

  /** Once the socket is closed it stays closed, and no byte reaches the wire in any continuation. */
  lemma ClosedSocketIsSilent(s: Tx, es: seq<Event>)
    requires !s.isOpen && Feasible(Step, s, es)
    ensures !Run(Step, s, es).isOpen && Run(Step, s, es).wire == s.wire
  {
    var silent := (t: Tx) => !t.isOpen && t.wire == s.wire;
    forall t, e | silent(t) && Enabled(t, e) ensures silent(Step(t, e)) {
      WireGrows(t, e);
    }
    Preserved(Step, silent, s, es);
  }

  /** In every run: at most one write is outstanding and it writes the queue's front; a write is
  outstanding exactly when the queue is not empty, unless an incomplete write closed the socket; every
  message completed, and the front, was launched once; no message is lost or reordered; and the backlog is the messages enqueued minus those completed. */
  lemma QueueDiscipline(es: seq<Event>)
    requires Feasible(Step, Init(), es)
    ensures var s := Run(Step, Init(), es);
            && |s.inFlight| <= 1
            && (s.inFlight != [] ==> s.queue != [] && s.inFlight[0].msg == s.queue[0])
            && (s.isOpen ==> (s.inFlight != [] <==> s.queue != []))
            && s.completed + s.queue == Sent(es)
            && s.launched == |s.completed| + (if s.queue == [] then 0 else 1)
            && Backlog(s) == |Sent(es)| - |s.completed|
  {
    ReachableInv(es);
    EnqueuedIsSent(Init(), es);
  }

  lemma PrefixOfStream(done: seq<Message>, queue: seq<Message>, sent: nat)
    requires queue != [] && sent <= |Encode(queue[0])|
    ensures Stream(done) + Encode(queue[0])[..sent] <= Stream(done + queue)
  {
    StreamConcat(done, queue);
    assert Stream(queue) == Encode(queue[0]) + Stream(queue[1..]);
  }

  lemma WireIsPrefix(s: Tx)
    requires Inv(s)
    ensures Stream(s.completed) <= s.wire <= Stream(s.enqueued)
    ensures s.queue == [] ==> s.wire == Stream(s.enqueued)
  {
    if s.queue == [] {
      assert s.completed + s.queue == s.completed;
    } else if s.inFlight != [] {
      PrefixOfStream(s.completed, s.queue, s.inFlight[0].sent);
    } else {
      var sent: nat :| sent < |Encode(s.queue[0])| && FrontSent(s, sent);
      PrefixOfStream(s.completed, s.queue, sent);
    }
  }

  /** A completion whose reported size differs from the payload's is exactly an incomplete write,
  and it is the only thing that freezes the queue. */
  lemma FreezeExactly(s: Tx, e: Event)
    requires Inv(s) && Enabled(s, e) && !Frozen(s)
    ensures Frozen(Step(s, e)) <==> e.WriteCompletes? && s.wire != Stream(s.completed + [s.queue[0]])
  {
    StepKeepsInv(s, e);
    if e.WriteCompletes? {
      var f := s.inFlight[e.k];
      StreamConcat(s.completed, [s.queue[0]]);
      StreamOne(s.queue[0]);
      assert |s.wire| == |Stream(s.completed)| + f.sent;
      if f.sent == |Encode(f.msg)| {
        assert Encode(f.msg)[..f.sent] == Encode(f.msg);
      }
    }
  }

  /** The rest of the front message is transferred and its write completes. */
  lemma FrontCompletes(s: Tx) returns (t: Tx, t': Tx)
    requires Inv(s) && s.isOpen && s.queue != []
    ensures var n := |Encode(s.queue[0])| - s.inFlight[0].sent;
            Enabled(s, Transfer(0, n)) && t == Step(s, Transfer(0, n))
    ensures Enabled(t, WriteCompletes(0)) && t' == Step(t, WriteCompletes(0))
    ensures Inv(t') && t'.isOpen && t'.enqueued == s.enqueued && t'.queue == s.queue[1..]
  {
    var n := |Encode(s.queue[0])| - s.inFlight[0].sent;
    t := Step(s, Transfer(0, n));
    TransferKeepsInv(s, 0, n);
    CompletionKeepsInv(t, 0);
    t' := Step(t, WriteCompletes(0));
  }

  /** The queue never deadlocks: from every state with an open socket, transfers and completions alone
  can bring every enqueued message, and nothing else, onto the wire. */
  lemma {:induction false} Drains(s: Tx) returns (es: seq<Event>)
    requires Inv(s) && s.isOpen
    ensures Feasible(Step, s, es) && Sent(es) == []
    ensures var t := Run(Step, s, es); t.isOpen && t.queue == [] && t.wire == Stream(s.enqueued)
    decreases |s.queue|
  {
    es := [];
    if s.queue == [] {
      WireIsPrefix(s);
    } else {
      var t, t' := FrontCompletes(s);
      var rest := Drains(t');
      var n := |Encode(s.queue[0])| - s.inFlight[0].sent;
      Cons(Step, t, WriteCompletes(0), rest);
      var more := [WriteCompletes(0)] + rest;
      Cons(Step, s, Transfer(0, n), more);
      es := [Transfer(0, n)] + more;
      assert es[1..] == more && more[1..] == rest;
    }
  }

  /** No continuation puts another byte on the wire. */
  ghost predicate Silent(s: Tx) {
    forall es | Feasible(Step, s, es) :: Run(Step, s, es).wire == s.wire
  }

  lemma OneMoreMessage(s: Tx, msg: Message)
    requires Inv(s)
    ensures |s.wire| + |Encode(msg)| <= |Stream(s.enqueued + [msg])|
  {
    WireIsPrefix(s);
    StreamConcat(s.enqueued, [msg]);
    StreamOne(msg);
  }

  /** Nothing more is ever written exactly when the socket is closed. */
  lemma SilentExactly(s: Tx)
    requires Inv(s)
    ensures Silent(s) <==> !s.isOpen
  {
    if s.isOpen {
      var msg := Binary([0]);
      StepKeepsInv(s, AsyncWrite(msg));
      var es := Drains(Step(s, AsyncWrite(msg)));
      OneMoreMessage(s, msg);
      Cons(Step, s, AsyncWrite(msg), es);
    } else {
      forall es | Feasible(Step, s, es) ensures Run(Step, s, es).wire == s.wire {
        ClosedSocketIsSilent(s, es);
      }
    }
  }

  /** Nothing moved on the wire since `s`. */
  ghost predicate StillFrozen(s: Tx, t: Tx) {
    Inv(t) && Frozen(t) && t.wire == s.wire && t.launched == s.launched && t.completed == s.completed
  }

  lemma StepStaysFrozen(s: Tx, t: Tx, e: Event)
    requires StillFrozen(s, t) && Enabled(t, e)
    ensures StillFrozen(s, Step(t, e))
  {
    StepKeepsInv(t, e);
  }

  lemma RunStaysFrozen(s: Tx, es: seq<Event>)
    requires StillFrozen(s, s) && Feasible(Step, s, es)
    ensures StillFrozen(s, Run(Step, s, es))
  {
    forall t, e | StillFrozen(s, t) && Enabled(t, e) ensures StillFrozen(s, Step(t, e)) {
      StepStaysFrozen(s, t, e);
    }
    Preserved(Step, (t: Tx) => StillFrozen(s, t), s, es);
  }

  lemma TruncatedWire(s: Tx)
    requires Inv(s) && Frozen(s)
    ensures Stream(s.completed) <= s.wire < Stream(s.completed + [s.queue[0]])
  {
    var sent: nat :| sent < |Encode(s.queue[0])| && FrontSent(s, sent);
    StreamConcat(s.completed, [s.queue[0]]);
    StreamOne(s.queue[0]);
    assert |s.wire| == |Stream(s.completed)| + sent;
  }

  lemma FrozenQueue(s: Tx, t: Tx, sent: seq<Message>)
    requires s.enqueued == s.completed + s.queue && t.enqueued == t.completed + t.queue
    requires t.completed == s.completed && t.enqueued == s.enqueued + sent
    ensures t.queue == s.queue + sent
  {
    assert (s.completed + s.queue) + sent == s.completed + (s.queue + sent);
    SamePrefix(s.completed, s.queue + sent, t.queue);
  }

  /** After an incomplete write nothing is ever launched or written again: in every continuation the
  wire keeps its bytes, which end strictly inside the front message, so no message ever follows the
  truncated one, although `AsyncWrite` keeps queueing. */
  lemma FrozenForever(s: Tx, es: seq<Event>)
    requires Inv(s) && Frozen(s) && Feasible(Step, s, es)
    ensures var r := Run(Step, s, es);
            && Frozen(r) && r.wire == s.wire && r.launched == s.launched && r.completed == s.completed
            && r.queue == s.queue + Sent(es)
            && Stream(s.completed) <= r.wire < Stream(s.completed + [s.queue[0]])
  {
    RunStaysFrozen(s, es);
    EnqueuedIsSent(s, es);
    FrozenQueue(s, Run(Step, s, es), Sent(es));
    TruncatedWire(s);
  }

  lemma SamePrefix(done: seq<Message>, xs: seq<Message>, ys: seq<Message>)
    requires done + ys == done + xs
    ensures xs == ys
  {
    assert (done + ys)[|done|..] == ys && (done + xs)[|done|..] == xs;
  }
}
