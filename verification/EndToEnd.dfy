/** A sending connection, the byte stream between the two sockets, and a receiving connection.  Every
interleaving of writes, partial transfers, write completions, read completions of any size, consumes
and failures is a run of this machine. */
module EndToEnd {
  import opened Bytes
  import opened Runs
  import opened IoBufferWrapper
  import opened NulFraming
  import W = WriteProtocol
  import R = ReceiveProtocol

  datatype Net = Net(
    tx: W.Tx,
    transit: seq<byte>,  // written by the sender, not yet delivered by a read
    cut: bool,           // the connection broke
    rx: R.Rx)

  datatype Event = Sender(w: W.Event) | Receiver(r: R.Event) | Break

  function Init(limit: nat): Net {
    Net(W.Init(), [], false, R.Init(limit))
  }

  predicate Enabled(s: Net, e: Event) {
    match e
    case Sender(w) => W.Enabled(s.tx, w) && (w.Transfer? ==> !s.cut)
    case Receiver(r) => R.Enabled(s.rx, r) && (r.ReadCompletes? ==> r.bytes <= s.transit)
    case Break => true
  }

  /** The bytes one step of the sender adds to the wire. */
  function Put(tx: W.Tx, w: W.Event): seq<byte>
    requires W.Enabled(tx, w)
  {
    var wire := W.Step(tx, w).wire;
    if |tx.wire| <= |wire| then wire[|tx.wire|..] else []
  }

  function Step(s: Net, e: Event): Net
    requires Enabled(s, e)
  {
    match e
    case Sender(w) => s.(tx := W.Step(s.tx, w), transit := s.transit + Put(s.tx, w))
    case Receiver(r) =>
      s.(rx := R.Step(s.rx, r), transit := if r.ReadCompletes? then s.transit[|r.bytes|..] else s.transit)
    case Break => s.(transit := [], cut := true)
  }

  ghost predicate Inv(s: Net) {
    && W.Inv(s.tx)
    && R.Inv(s.rx)
    && (if s.cut then s.transit == [] && s.rx.received <= s.tx.wire else s.rx.received + s.transit == s.tx.wire)
  }

  lemma SenderKeepsInv(s: Net, w: W.Event)
    requires Inv(s) && Enabled(s, Sender(w))
    ensures Inv(Step(s, Sender(w)))
  {
    var t, put := Step(s, Sender(w)), Put(s.tx, w);
    assert W.Inv(t.tx) by { W.StepKeepsInv(s.tx, w); }
    assert t.tx.wire == s.tx.wire + put && (s.cut ==> put == []) by { W.WireGrows(s.tx, w); }
    AppendAssociative(s.rx.received, s.transit, put);
  }

  lemma ReceiverKeepsInv(s: Net, r: R.Event)
    requires Inv(s) && Enabled(s, Receiver(r))
    ensures Inv(Step(s, Receiver(r)))
  {
    var t, got := Step(s, Receiver(r)), R.ArrivesBy(r);
    assert R.Inv(t.rx) by { R.StepKeepsInv(s.rx, r); }
    assert t.rx.received == s.rx.received + got by { R.StepReceives(s.rx, r); }
    assert t.transit == s.transit[|got|..] && t.tx == s.tx && t.cut == s.cut;
    DeliverFront(s.rx.received, got, s.transit);
  }

  lemma DeliverFront(received: seq<byte>, got: seq<byte>, transit: seq<byte>)
    requires got <= transit
    ensures (received + got) + transit[|got|..] == received + transit
    ensures transit == [] ==> received + got == received
  {
    assert transit == got + transit[|got|..];
  }

  lemma StepKeepsInv(s: Net, e: Event)
    requires Inv(s) && Enabled(s, e)
    ensures Inv(Step(s, e))
  {
    match e
    case Sender(w) => SenderKeepsInv(s, w);
    case Receiver(r) => ReceiverKeepsInv(s, r);
    case Break =>
  }

  lemma ReachableInv(s: Net, es: seq<Event>)
    requires Inv(s) && Feasible(Step, s, es)
    ensures Inv(Run(Step, s, es))
  {
    forall t, e | Inv(t) && Enabled(t, e) ensures Inv(Step(t, e)) {
      StepKeepsInv(t, e);
    }
    Preserved(Step, Inv, s, es);
  }

  /** What the sender did in a run. */
  function SenderEvents(es: seq<Event>): seq<W.Event> {
    if es == [] then [] else (if es[0].Sender? then [es[0].w] else []) + SenderEvents(es[1..])
  }

  lemma {:induction false} SenderRun(s: Net, es: seq<Event>)
    requires Feasible(Step, s, es)
    ensures Feasible(W.Step, s.tx, SenderEvents(es))
    ensures Run(Step, s, es).tx == Run(W.Step, s.tx, SenderEvents(es))
    decreases |es|
  {
    if es != [] {
      SenderRun(Step(s, es[0]), es[1..]);
      if es[0].Sender? {
        assert SenderEvents(es)[1..] == SenderEvents(es[1..]);
      } else {
        assert SenderEvents(es) == SenderEvents(es[1..]);
      }
    }
  }

  /** The messages passed to the sender's `AsyncWrite` in a run, in call order. */
  function Messages(es: seq<Event>): seq<Message> {
    W.Sent(SenderEvents(es))
  }

  /** What the receiver has got: consumed bytes, then the live buffer. */
  function Got(s: Net): seq<byte> {
    s.rx.consumed + s.rx.Live()
  }

  lemma MessagesAreEnqueued(limit: nat, es: seq<Event>)
    requires Feasible(Step, Init(limit), es)
    ensures Run(Step, Init(limit), es).tx.enqueued == Messages(es)
  {
    SenderRun(Init(limit), es);
    W.EnqueuedIsSent(W.Init(), SenderEvents(es));
  }

  /** In every run the receiver's bytes are a prefix of the encodings of the sent messages in call
  order; they are all of them once the queue is empty and nothing is in transit. */
  lemma StreamDelivered(limit: nat, es: seq<Event>)
    requires Feasible(Step, Init(limit), es)
    ensures var s := Run(Step, Init(limit), es);
            && Got(s) <= Stream(Messages(es))
            && (s.tx.queue == [] && s.transit == [] && !s.cut ==> Got(s) == Stream(Messages(es)))
  {
    ReachableInv(Init(limit), es);
    MessagesAreEnqueued(limit, es);
    W.WireIsPrefix(Run(Step, Init(limit), es).tx);
  }

  /** In every run of NUL-terminated messages the frames the receiver can cut out are the sent texts
  in order, a prefix of them without the empty ones. */
  lemma FramesDelivered(limit: nat, es: seq<Event>)
    requires Feasible(Step, Init(limit), es) && AllTerminated(Messages(es))
    ensures var s := Run(Step, Init(limit), es);
            && Frames(Got(s)) <= NonEmpty(Texts(Messages(es)))
            && (s.tx.queue == [] && s.transit == [] && !s.cut ==> Frames(Got(s)) == NonEmpty(Texts(Messages(es))))
  {
    StreamDelivered(limit, es);
    FramesMonotone(Got(Run(Step, Init(limit), es)), Stream(Messages(es)));
    FramesOfStream(Messages(es));
  }

  /** After an incomplete write, whatever happens next, the receiver never gets a byte behind the
  truncated message: it does not even get that message's last byte. */
  lemma NothingBehindTruncation(limit: nat, es: seq<Event>, fs: seq<Event>)
    requires Feasible(Step, Init(limit), es) && W.Frozen(Run(Step, Init(limit), es).tx)
    requires Feasible(Step, Run(Step, Init(limit), es), fs)
    ensures var s := Run(Step, Init(limit), es);
            Got(Run(Step, s, fs)) < Stream(s.tx.completed + [s.tx.queue[0]])
  {
    ReachableInv(Init(limit), es);
    var s := Run(Step, Init(limit), es);
    ReachableInv(s, fs);
    SenderRun(s, fs);
    W.FrozenForever(s.tx, SenderEvents(fs));
    assert Got(Run(Step, s, fs)) <= Run(Step, s, fs).tx.wire;
  }
}
