/** Sender, wire, receive buffer and the record reader together (HelloAsio/main.cpp:49-70): the machine
of `EndToEnd`, with an application that takes at most one record in each notification and consumes
nothing else. */
module RecordDelivery {
  import opened Bytes
  import opened Runs
  import opened IoBufferWrapper
  import opened RecordReader
  import E = EndToEnd
  import R = ReceiveProtocol
  import W = WriteProtocol

  datatype App = App(
    amount: nat,               // the record size
    net: E.Net,
    records: seq<seq<byte>>)   // taken so far

  datatype Event =
    | Other(e: E.Event)             // of the sender, the wire, or the receive buffer
    | Notified(block: seq<byte>)    // the notification callback runs and returns

  function Init(amount: nat, limit: nat): App {
    App(amount, E.Init(limit), [])
  }

  /** What the callback does: at most one record is taken. */
  function Taken(s: App): App
    requires s.net.rx.size <= |s.net.rx.memory|
  {
    if s.net.rx.size >= s.amount then
      s.(net := E.Step(s.net, E.Receiver(R.Consume(s.amount))), records := s.records + [s.net.rx.Live()[..s.amount]])
    else
      s
  }

  /** Reads are issued for at most a record; a callback may throw instead of taking its record. */
  predicate Enabled(s: App, e: Event) {
    match e
    case Other(o) =>
      && E.Enabled(s.net, o)
      && (o.Receiver? ==> !o.r.Consume? && !o.r.CallbackReturns? && (o.r.BeginChainedRead? ==> o.r.chunk <= s.amount))
    case Notified(block) =>
      s.net.rx.hasContext && s.net.rx.size <= |s.net.rx.memory| && E.Enabled(Taken(s).net, E.Receiver(R.CallbackReturns(block)))
  }

  function Step(s: App, e: Event): App
    requires Enabled(s, e)
  {
    match e
    case Other(o) => s.(net := E.Step(s.net, o))
    case Notified(block) =>
      var t := Taken(s);
      t.(net := E.Step(t.net, E.Receiver(R.CallbackReturns(block))))
  }

  /** The reader, once a notification that is still to be handled has been, agrees with the received
  stream cut into records; and a whole record waits only for a callback, or because one has thrown. */
  ghost predicate Follows(amount: nat, rx: R.Rx, records: seq<seq<byte>>) {
    && amount > 0 && (rx.chained ==> rx.chunk <= amount)
    && Notify(amount, Reader(rx.Live(), records), []) == Cut(amount, rx.received)
    && (rx.size >= amount ==> rx.hasContext || R.Stalled(rx))
  }

  ghost predicate Inv(s: App) {
    E.Inv(s.net) && Follows(s.amount, s.net.rx, s.records)
  }

  lemma {:induction false} CutLeavesLess(A: nat, stream: seq<byte>)
    requires A > 0
    ensures |Cut(A, stream).live| < A
    decreases |stream|
  {
    if |stream| >= A {
      CutLeavesLess(A, stream[A..]);
    }
  }

  lemma CompletionFollows(amount: nat, rx: R.Rx, records: seq<seq<byte>>, k: nat, bytes: seq<byte>)
    requires R.Inv(rx) && Follows(amount, rx, records) && R.Enabled(rx, R.ReadCompletes(k, bytes))
    ensures Follows(amount, R.Step(rx, R.ReadCompletes(k, bytes)), records)
  {
    R.CompletionFits(rx, k, bytes);
    NotifyKeepsUp(amount, rx.received, bytes);
    assert rx.Live() + [] == rx.Live();
    assert (rx.Live() + bytes) + [] == rx.Live() + bytes;
  }

  /** The other events of the buffer leave the live bytes alone. */
  lemma OtherFollows(amount: nat, rx: R.Rx, records: seq<seq<byte>>, r: R.Event)
    requires R.Inv(rx) && Follows(amount, rx, records) && R.Enabled(rx, r)
    requires !r.ReadCompletes? && !r.Consume? && (r.BeginChainedRead? ==> r.chunk <= amount)
    requires r.CallbackReturns? ==> rx.size < amount
    ensures Follows(amount, R.Step(rx, r), records)
  {
    R.StepKeepsInv(rx, r);
    assert R.Step(rx, r).Live() == rx.Live();
  }

  lemma TakingFollows(amount: nat, rx: R.Rx, records: seq<seq<byte>>)
    requires R.Inv(rx) && Follows(amount, rx, records) && rx.hasContext && rx.size >= amount
    ensures var taken := R.Step(rx, R.Consume(amount));
            R.Inv(taken) && Follows(amount, taken, records + [rx.Live()[..amount]]) && taken.size < amount
  {
    R.ConsumeKeepsInv(rx, amount);
    R.ConsumeTakesFront(rx, amount);
    CutLeavesLess(amount, rx.received);
    assert rx.Live() + [] == rx.Live();
    assert rx.Live()[amount..] + [] == rx.Live()[amount..];
  }

  lemma StepKeepsInv(s: App, e: Event)
    requires Inv(s) && Enabled(s, e)
    ensures Inv(Step(s, e))
  {
    match e
    case Other(o) =>
      E.StepKeepsInv(s.net, o);
      if o.Receiver? {
        if o.r.ReadCompletes? {
          CompletionFollows(s.amount, s.net.rx, s.records, o.r.k, o.r.bytes);
        } else {
          OtherFollows(s.amount, s.net.rx, s.records, o.r);
        }
      }
    case Notified(block) =>
      var t := Taken(s);
      if s.net.rx.size >= s.amount {
        E.StepKeepsInv(s.net, E.Receiver(R.Consume(s.amount)));
        TakingFollows(s.amount, s.net.rx, s.records);
      }
      E.StepKeepsInv(t.net, E.Receiver(R.CallbackReturns(block)));
      OtherFollows(t.amount, t.net.rx, t.records, R.CallbackReturns(block));
  }

  lemma ReachableInv(amount: nat, limit: nat, es: seq<Event>)
    requires amount > 0 && Feasible(Step, Init(amount, limit), es)
    ensures Inv(Run(Step, Init(amount, limit), es)) && Run(Step, Init(amount, limit), es).amount == amount
  {
    var inv := (s: App) => Inv(s) && s.amount == amount;
    forall s, e | inv(s) && Enabled(s, e) ensures inv(Step(s, e)) {
      StepKeepsInv(s, e);
    }
    Preserved(Step, inv, Init(amount, limit), es);
  }

  function SentBy(e: Event): seq<Message> {
    if e.Other? && e.e.Sender? then W.SentBy(e.e.w) else []
  }

  /** The messages passed to the sender's `AsyncWrite` in a run, in call order. */
  function Messages(es: seq<Event>): seq<Message> {
    if es == [] then [] else SentBy(es[0]) + Messages(es[1..])
  }

  lemma StepEnqueues(s: App, e: Event)
    requires Enabled(s, e)
    ensures Step(s, e).net.tx.enqueued == s.net.tx.enqueued + SentBy(e)
  {
    if e.Other? && e.e.Sender? {
      W.StepEnqueues(s.net.tx, e.e.w);
    }
  }

  lemma {:induction false} EnqueuedIsSent(s: App, es: seq<Event>)
    requires Feasible(Step, s, es)
    ensures Run(Step, s, es).net.tx.enqueued == s.net.tx.enqueued + Messages(es)
    decreases |es|
  {
    if es != [] {
      StepEnqueues(s, es[0]);
      EnqueuedIsSent(Step(s, es[0]), es[1..]);
      AppendAssociative(s.net.tx.enqueued, SentBy(es[0]), Messages(es[1..]));
    }
  }

  /** Everything that was sent has been received. */
  predicate Arrived(s: App) {
    s.net.tx.queue == [] && s.net.transit == [] && !s.net.cut
  }

  lemma {:induction false} CutMonotone(A: nat, p: seq<byte>, s: seq<byte>)
    requires A > 0 && p <= s
    ensures Cut(A, p).records <= Cut(A, s).records
    decreases |p|
  {
    if |p| >= A {
      CutMonotone(A, p[A..], s[A..]);
      assert p[..A] == s[..A];
    }
  }

  lemma TakenSoFar(amount: nat, rx: R.Rx, records: seq<seq<byte>>)
    requires R.Inv(rx) && Follows(amount, rx, records)
    ensures var cut := Cut(amount, rx.received).records;
            records <= cut && (records == cut <==> rx.size < amount)
  {
    assert rx.Live() + [] == rx.Live();
  }

  lemma ReceivedIsPrefix(s: App)
    requires Inv(s)
    ensures s.net.rx.received <= Stream(s.net.tx.enqueued)
    ensures Arrived(s) ==> s.net.rx.received == Stream(s.net.tx.enqueued)
  {
    W.WireIsPrefix(s.net.tx);
    if Arrived(s) {
      assert s.net.rx.received + [] == s.net.rx.received;
    }
  }

  /** In every run the records the application has taken are a prefix of the sent stream cut into
  records.  Once everything has arrived they are all of them exactly if less than a record is live,
  and a whole record stays live only while its callback is still to run, or after a callback threw. */
  lemma RecordsTaken(amount: nat, limit: nat, es: seq<Event>)
    requires amount > 0 && Feasible(Step, Init(amount, limit), es)
    ensures var s := Run(Step, Init(amount, limit), es);
            var all := Cut(amount, Stream(Messages(es))).records;
            && s.records <= all
            && (Arrived(s) ==> (s.records == all <==> s.net.rx.size < amount))
            && (s.net.rx.size >= amount ==> s.net.rx.hasContext || R.Stalled(s.net.rx))
  {
    ReachableInv(amount, limit, es);
    EnqueuedIsSent(Init(amount, limit), es);
    var s := Run(Step, Init(amount, limit), es);
    assert s.net.tx.enqueued == [] + Messages(es) == Messages(es);
    ReceivedIsPrefix(s);
    TakenSoFar(amount, s.net.rx, s.records);
    CutMonotone(amount, s.net.rx.received, Stream(Messages(es)));
  }

  /** Every message is a byte vector of the record size. */
  predicate AllRecords(ms: seq<Message>, A: nat) {
    forall m | m in ms :: m.Binary? && |m.data| == A
  }

  function Datas(ms: seq<Message>): seq<seq<byte>> {
    if ms == [] then [] else [if ms[0].Binary? then ms[0].data else ms[0].text] + Datas(ms[1..])
  }

  lemma {:induction false} CutOfRecords(ms: seq<Message>, A: nat)
    requires A > 0 && AllRecords(ms, A)
    ensures Cut(A, Stream(ms)) == Reader([], Datas(ms))
  {
    if ms != [] {
      assert ms[0] in ms;
      CutOfRecords(ms[1..], A);
      assert Stream(ms)[..A] == ms[0].data && Stream(ms)[A..] == Stream(ms[1..]);
    }
  }

  /** In every run of record-sized messages the records the application has taken are the messages sent,
  in order and unaltered; all of them once everything has arrived and a read is outstanding again. */
  lemma MessagesTaken(amount: nat, limit: nat, es: seq<Event>)
    requires amount > 0 && Feasible(Step, Init(amount, limit), es) && AllRecords(Messages(es), amount)
    ensures var s := Run(Step, Init(amount, limit), es);
            && s.records <= Datas(Messages(es))
            && (Arrived(s) && s.net.rx.pending != [] ==> s.records == Datas(Messages(es)))
  {
    RecordsTaken(amount, limit, es);
    CutOfRecords(Messages(es), amount);
    ReachableInv(amount, limit, es);
  }

  /** The connection works: nothing is closed, broken or stopped, and the buffer may hold a record and
  a chunk. */
  predicate Working(s: App) {
    && s.net.tx.isOpen && !s.net.cut && R.Active(s.net.rx)
    && s.amount + s.net.rx.chunk <= s.net.rx.limit
  }

  /** A working connection whose buffer waits for the next bytes. */
  ghost predicate Reading(s: App) {
    Inv(s) && Working(s) && s.net.rx.pending != []
  }

  /** The callback runs, and the next read is issued. */
  lemma NotificationReads(s: App) returns (e: Event)
    requires Inv(s) && Working(s) && s.net.rx.hasContext
    ensures Enabled(s, e) && Reading(Step(s, e)) && SentBy(e) == []
    ensures Step(s, e).net.tx == s.net.tx && Step(s, e).net.transit == s.net.transit
  {
    e := Notified(seq(s.amount + s.net.rx.chunk, i => 0));
    if s.net.rx.size >= s.amount {
      TakingFollows(s.amount, s.net.rx, s.records);
    }
    StepKeepsInv(s, e);
  }

  /** The callback that runs, if any, is over. */
  lemma BecomesReading(s: App) returns (es: seq<Event>)
    requires Inv(s) && Working(s)
    ensures Feasible(Step, s, es) && Messages(es) == [] && Reading(Run(Step, s, es))
  {
    es := [];
    if s.net.rx.hasContext {
      var e := NotificationReads(s);
      assert Feasible(Step, Step(s, e), []);
      Cons(Step, s, e, []);
      es := [e] + [];
      assert Messages(es) == SentBy(e) + Messages(es[1..]) == [];
    }
  }

  lemma ChunkIsRead(s: App) returns (e: Event)
    requires Reading(s) && s.net.transit != []
    ensures Enabled(s, e) && SentBy(e) == []
    ensures var t := Step(s, e);
            Inv(t) && Working(t) && t.net.rx.hasContext && t.net.tx == s.net.tx && |t.net.transit| < |s.net.transit|
  {
    var c := s.net.rx.chunk;
    var bytes := if |s.net.transit| <= c then s.net.transit else s.net.transit[..c];
    e := Other(E.Receiver(R.ReadCompletes(0, bytes)));
    StepKeepsInv(s, e);
  }

  /** The bytes in transit are read chunk by chunk, and the records taken. */
  lemma {:induction false} TransitArrives(s: App) returns (es: seq<Event>)
    requires Reading(s)
    ensures Feasible(Step, s, es) && Messages(es) == []
    ensures var t := Run(Step, s, es); Reading(t) && t.net.tx == s.net.tx && t.net.transit == []
    decreases |s.net.transit|
  {
    es := [];
    if s.net.transit != [] {
      var read := ChunkIsRead(s);
      var t := Step(s, read);
      var notified := NotificationReads(t);
      var rest := TransitArrives(Step(t, notified));
      Cons(Step, t, notified, rest);
      var more := [notified] + rest;
      Cons(Step, s, read, more);
      es := [read] + more;
      assert es[1..] == more && more[1..] == rest;
    }
  }

  /** What the sender can do alone it can do here. */
  lemma {:induction false} SenderGoesOn(s: App, ws: seq<W.Event>) returns (es: seq<Event>)
    requires Reading(s) && Feasible(W.Step, s.net.tx, ws) && Run(W.Step, s.net.tx, ws).isOpen && W.Sent(ws) == []
    ensures Feasible(Step, s, es) && Messages(es) == []
    ensures var t := Run(Step, s, es); Reading(t) && t.net.tx == Run(W.Step, s.net.tx, ws)
    decreases |ws|
  {
    es := [];
    if ws != [] {
      var e := Other(E.Sender(ws[0]));
      StepKeepsInv(s, e);
      StaysOpen(W.Step(s.net.tx, ws[0]), ws[1..]);
      var rest := SenderGoesOn(Step(s, e), ws[1..]);
      Cons(Step, s, e, rest);
      es := [e] + rest;
      assert es[1..] == rest;
    }
  }

  lemma StaysOpen(tx: W.Tx, ws: seq<W.Event>)
    requires Feasible(W.Step, tx, ws) && Run(W.Step, tx, ws).isOpen
    ensures tx.isOpen
  {
    if !tx.isOpen {
      W.ClosedSocketIsSilent(tx, ws);
    }
  }

  /** Nothing deadlocks: from every reachable state of a working connection some continuation, in which
  the application sends nothing more, brings every message sent so far to the receiving application. */
  lemma DeliveryCompletes(amount: nat, limit: nat, es: seq<Event>) returns (fs: seq<Event>)
    requires amount > 0 && Feasible(Step, Init(amount, limit), es) && Working(Run(Step, Init(amount, limit), es))
    ensures Feasible(Step, Init(amount, limit), es + fs) && Messages(fs) == []
    ensures var t := Run(Step, Init(amount, limit), es + fs);
            Arrived(t) && t.records == Cut(amount, Stream(Messages(es))).records
  {
    ReachableInv(amount, limit, es);
    var s := Run(Step, Init(amount, limit), es);
    var notified := BecomesReading(s);
    var t := Run(Step, s, notified);
    var ws := W.Drains(t.net.tx);
    var sent := SenderGoesOn(t, ws);
    var read := TransitArrives(Run(Step, t, sent));
    Concat(Step, t, sent, read);
    Concat(Step, s, notified, sent + read);
    fs := notified + (sent + read);
    Concat(Step, Init(amount, limit), es, fs);
    MessagesConcat(sent, read);
    MessagesConcat(notified, sent + read);
    MessagesConcat(es, fs);
    assert Messages(fs) == [] && Messages(es) + [] == Messages(es);
    RecordsTaken(amount, limit, es + fs);
  }

  lemma {:induction false} MessagesConcat(es: seq<Event>, fs: seq<Event>)
    ensures Messages(es + fs) == Messages(es) + Messages(fs)
  {
    if es == [] {
      assert es + fs == fs;
    } else {
      assert (es + fs)[0] == es[0] && (es + fs)[1..] == es[1..] + fs;
      MessagesConcat(es[1..], fs);
      AppendAssociative(SentBy(es[0]), Messages(es[1..]), Messages(fs));
    }
  }
}
