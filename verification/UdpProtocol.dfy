/** The receiving side of a UDP listener (IoServices/UdpListener.cpp:72-102, 163-167, 220-255): every
receive is issued in one of two modes, chosen by whether an asynchronous connect has succeeded.  In
the unconnected mode the completion overwrites `PeerEndPoint` with the datagram's source. */
module UdpProtocol {
  import opened Bytes
  import opened Runs
  import R = ReceiveProtocol

  type EndPoint = nat

  datatype Mode = ReceiveFrom | Receive

  datatype Udp = Udp(
    rx: R.Rx,
    modes: seq<Mode>,      // of the outstanding receives
    connected: bool,       // _asyncConnected
    receivedFrom: bool,    // _asyncReceivedFrom
    peerEndPoint: EndPoint,
    overwrites: nat)       // how many completions wrote PeerEndPoint

  datatype Event =
    | SetupChainedRead(size: nat, immediate: bool, block: seq<byte>)
    | LaunchRead(block: seq<byte>)       // by the application, or at the end of the connect handler
    | ConnectStores                      // the connect handler sets _asyncConnected
    | ConnectAssigns(dest: EndPoint)     // and then PeerEndPoint
    | Receives(k: nat, bytes: seq<byte>, source: EndPoint)
    | ReceiveFails(k: nat, source: EndPoint)
    | Consume(len: nat)
    | CallbackReturns(block: seq<byte>)
    | CallbackThrows

  function Init(limit: nat): Udp {
    Udp(R.Init(limit), [], false, false, 0, 0)
  }

  /** The step of the read buffer, if any. */
  function BufferEvent(e: Event): Option<R.Event> {
    match e
    case SetupChainedRead(size, immediate, block) => Some(R.BeginChainedRead(size, immediate, block))
    case LaunchRead(block) => Some(R.BeginReadSome(block))
    case Receives(k, bytes, _) => Some(R.ReadCompletes(k, bytes))
    case ReceiveFails(k, _) => Some(R.ReadFails(k))
    case Consume(len) => Some(R.Consume(len))
    case CallbackReturns(block) => Some(R.CallbackReturns(block))
    case CallbackThrows => Some(R.CallbackThrows)
    case _ => None
  }

  predicate Enabled(s: Udp, e: Event) {
    && |s.modes| == |s.rx.pending|
    && (e.Receives? ==> e.bytes != [])
    && match BufferEvent(e)
       case Some(r) => R.Enabled(s.rx, r)
       case None => true
  }

  /** What the buffer's read callback does when the buffer went to `rx`: a new read is issued in the
  mode of the moment. */
  function Issued(s: Udp, rx: R.Rx): Udp {
    if |rx.pending| > |s.rx.pending| then
      s.(rx := rx, modes := s.modes + [if s.connected then Receive else ReceiveFrom],
         receivedFrom := s.receivedFrom || !s.connected)
    else
      s.(rx := rx)
  }

  /** Receive `k` is over; in the unconnected mode it has written the source. */
  function Over(s: Udp, k: nat, source: EndPoint): Udp
    requires k < |s.modes|
  {
    var r := s.(modes := Without(s.modes, k));
    if s.modes[k].ReceiveFrom? then r.(peerEndPoint := source, overwrites := s.overwrites + 1) else r
  }

  function Step(s: Udp, e: Event): Udp
    requires Enabled(s, e)
  {
    match e
    case ConnectStores => s.(connected := true)
    case ConnectAssigns(dest) => s.(peerEndPoint := dest)
    case Receives(k, bytes, source) => Over(s, k, source).(rx := R.Step(s.rx, R.ReadCompletes(k, bytes)))
    case ReceiveFails(k, source) => Over(s, k, source).(rx := R.Step(s.rx, R.ReadFails(k)))
    case _ => Issued(s, R.Step(s.rx, BufferEvent(e).value))
  }

  ghost predicate Inv(s: Udp) {
    && R.Inv(s.rx) && |s.modes| == |s.rx.pending|
    && (ReceiveFrom in s.modes || s.overwrites > 0 ==> s.receivedFrom)
  }

  lemma IssuesAtMostOne(s: R.Rx, r: R.Event)
    requires R.Inv(s) && R.Enabled(s, r) && !r.ReadCompletes? && !r.ReadFails?
    ensures |R.Step(s, r).pending| == |s.pending| || (s.pending == [] && |R.Step(s, r).pending| == 1)
  {
    R.StepKeepsInv(s, r);
  }

  lemma StepKeepsInv(s: Udp, e: Event)
    requires Inv(s) && Enabled(s, e)
    ensures Inv(Step(s, e))
  {
    var b := BufferEvent(e);
    if b.Some? {
      R.StepKeepsInv(s.rx, b.value);
      if !e.Receives? && !e.ReceiveFails? {
        IssuesAtMostOne(s.rx, b.value);
      }
    }
  }

  lemma ReachableInv(limit: nat, es: seq<Event>)
    requires Feasible(Step, Init(limit), es)
    ensures Inv(Run(Step, Init(limit), es))
  {
    forall t, e | Inv(t) && Enabled(t, e) ensures Inv(Step(t, e)) {
      StepKeepsInv(t, e);
    }
    Preserved(Step, Inv, Init(limit), es);
  }

  /** For any mix of launches, connects and completions at most one receive is outstanding, and a
  listener that ever received unconnected says so. */
  lemma OneReceive(limit: nat, es: seq<Event>)
    requires Feasible(Step, Init(limit), es)
    ensures var s := Run(Step, Init(limit), es);
            |s.modes| <= 1 && (s.overwrites > 0 ==> s.receivedFrom)
  {
    ReachableInv(limit, es);
  }

  /** The completions that can still overwrite `PeerEndPoint` once connected. */
  function Unconnected(s: Udp): nat {
    if s.modes != [] && s.modes[0].ReceiveFrom? then 1 else 0
  }

  lemma ConnectedStep(s: Udp, e: Event)
    requires Inv(s) && Enabled(s, e) && s.connected
    ensures var t := Step(s, e);
            && t.connected && Inv(t)
            && t.overwrites + Unconnected(t) <= s.overwrites + Unconnected(s)
            && (t.peerEndPoint != s.peerEndPoint ==> e.ConnectAssigns? || t.overwrites > s.overwrites)
  {
    StepKeepsInv(s, e);
    var b := BufferEvent(e);
    if b.Some? && !e.Receives? && !e.ReceiveFails? {
      IssuesAtMostOne(s.rx, b.value);
    }
  }

  /** Once a connect has succeeded, in every continuation at most one completion still overwrites
  `PeerEndPoint`, and none if no unconnected receive was outstanding. */
  lemma OverwritesAfterConnect(s: Udp, fs: seq<Event>)
    requires Inv(s) && s.connected && Feasible(Step, s, fs)
    ensures Run(Step, s, fs).overwrites <= s.overwrites + Unconnected(s) <= s.overwrites + 1
  {
    var inv := (t: Udp) => Inv(t) && t.connected && t.overwrites + Unconnected(t) <= s.overwrites + Unconnected(s);
    forall t, e | inv(t) && Enabled(t, e) ensures inv(Step(t, e)) {
      ConnectedStep(t, e);
    }
    Preserved(Step, inv, s, fs);
  }

  /** Nobody connects again. */
  predicate NoConnect(es: seq<Event>) {
    forall e | e in es :: !e.ConnectAssigns?
  }

  lemma EndPointSettles(s: Udp, fs: seq<Event>)
    requires Inv(s) && s.connected && Unconnected(s) == 0 && Feasible(Step, s, fs) && NoConnect(fs)
    ensures Run(Step, s, fs).peerEndPoint == s.peerEndPoint
  {
    var inv := (t: Udp) =>
      Inv(t) && t.connected && Unconnected(t) == 0 && t.overwrites == s.overwrites && t.peerEndPoint == s.peerEndPoint;
    var allowed := (e: Event) => !e.ConnectAssigns?;
    forall t, e | inv(t) && allowed(e) && Enabled(t, e) ensures inv(Step(t, e)) {
      ConnectedStep(t, e);
      OverwritesGrow(t, e);
    }
    PreservedUnder(Step, allowed, inv, s, fs);
  }

  lemma OverwritesGrow(s: Udp, e: Event)
    requires Enabled(s, e)
    ensures s.overwrites <= Step(s, e).overwrites
  {
  }

  /** The destination of the last connect among `es`. */
  function LastDest(before: EndPoint, es: seq<Event>): EndPoint
    decreases |es|
  {
    if es == [] then before else LastDest(if es[0].ConnectAssigns? then es[0].dest else before, es[1..])
  }

  /** What the end point is: once no unconnected receive is outstanding, in every run the destination of
  the last connect. */
  lemma {:induction false} EndPointIsLastDest(s: Udp, es: seq<Event>)
    requires Inv(s) && s.connected && Unconnected(s) == 0 && Feasible(Step, s, es)
    ensures Run(Step, s, es).peerEndPoint == LastDest(s.peerEndPoint, es)
    decreases |es|
  {
    if es != [] {
      ConnectedStep(s, es[0]);
      OverwritesGrow(s, es[0]);
      if es[0].ConnectAssigns? {
        AssignsDest(s, es[0]);
      }
      EndPointIsLastDest(Step(s, es[0]), es[1..]);
    }
  }

  lemma AssignsDest(s: Udp, e: Event)
    requires Enabled(s, e) && e.ConnectAssigns?
    ensures Step(s, e).peerEndPoint == e.dest
  {
  }

  /** No connect has succeeded, so every receive was issued in the unconnected mode. */
  ghost predicate NeverConnected(s: Udp) {
    Inv(s) && !s.connected && forall m | m in s.modes :: m == ReceiveFrom
  }

  /** The end point that the last completion among `es` reported. */
  function LastSource(before: EndPoint, es: seq<Event>): EndPoint
    decreases |es|
  {
    if es == [] then before else
      LastSource(if es[0].Receives? || es[0].ReceiveFails? then es[0].source else before, es[1..])
  }

  predicate NoConnectAtAll(es: seq<Event>) {
    forall e | e in es :: !e.ConnectStores? && !e.ConnectAssigns?
  }

  lemma UnconnectedStep(s: Udp, e: Event)
    requires NeverConnected(s) && Enabled(s, e) && !e.ConnectStores? && !e.ConnectAssigns?
    ensures NeverConnected(Step(s, e))
    ensures Step(s, e).peerEndPoint == if e.Receives? || e.ReceiveFails? then e.source else s.peerEndPoint
  {
    StepKeepsInv(s, e);
    if e.Receives? || e.ReceiveFails? {
      assert s.modes[e.k] in s.modes;
    }
  }

  lemma {:induction false} UnconnectedRun(s: Udp, es: seq<Event>)
    requires NeverConnected(s) && Feasible(Step, s, es) && NoConnectAtAll(es)
    ensures NeverConnected(Run(Step, s, es))
    ensures Run(Step, s, es).peerEndPoint == LastSource(s.peerEndPoint, es)
    decreases |es|
  {
    if es != [] {
      assert es[0] in es;
      UnconnectedStep(s, es[0]);
      UnconnectedRun(Step(s, es[0]), es[1..]);
    }
  }

  /** A listener that never connects always tells the source of the last datagram. */
  lemma SourceIsReported(limit: nat, es: seq<Event>)
    requires Feasible(Step, Init(limit), es) && NoConnectAtAll(es)
    ensures Run(Step, Init(limit), es).peerEndPoint == LastSource(0, es)
  {
    UnconnectedRun(Init(limit), es);
  }

  /** A connected listener without an unconnected receive: it never says it received from anyone,
  unless it has said so already. */
  lemma ReceivedFromIsFinal(s: Udp, es: seq<Event>)
    requires Inv(s) && s.connected && Unconnected(s) == 0 && Feasible(Step, s, es)
    ensures Run(Step, s, es).receivedFrom == s.receivedFrom
  {
    var inv := (t: Udp) => Inv(t) && t.connected && Unconnected(t) == 0 && t.receivedFrom == s.receivedFrom;
    forall t, e | inv(t) && Enabled(t, e) ensures inv(Step(t, e)) {
      ConnectedStep(t, e);
      OverwritesGrow(t, e);
    }
    Preserved(Step, inv, s, es);
  }

  /** A deferred start issues nothing; the launch that follows issues one receive, in the mode of the
  moment, exactly when it fits below `max_size`. */
  lemma DeferredStart(s: Udp, size: nat, block: seq<byte>, later: seq<byte>)
    requires Inv(s) && !s.rx.chained && Enabled(s, SetupChainedRead(size, false, block))
    requires Enabled(Step(s, SetupChainedRead(size, false, block)), LaunchRead(later))
    ensures var t := Step(s, SetupChainedRead(size, false, block));
            && t.modes == []
            && Step(t, LaunchRead(later)).modes
               == if s.rx.size + size < s.rx.limit then [if s.connected then Receive else ReceiveFrom] else []
  {
    R.StartExactly(s.rx, size, false, block, later);
    StepKeepsInv(s, SetupChainedRead(size, false, block));
    StepKeepsInv(Step(s, SetupChainedRead(size, false, block)), LaunchRead(later));
  }

  /** Some completion to come overwrites `PeerEndPoint`. */
  ghost predicate CanOverwrite(s: Udp) {
    exists fs :: Feasible(Step, s, fs) && Run(Step, s, fs).overwrites > s.overwrites
  }

  /** `PeerEndPoint` can become something else although nobody connects again. */
  ghost predicate CanChange(s: Udp) {
    exists fs :: Feasible(Step, s, fs) && NoConnect(fs) && Run(Step, s, fs).peerEndPoint != s.peerEndPoint
  }

  /** From any state after a connect, the end point can still be overwritten, and changed without a new
  connect, exactly when a receive issued in the unconnected mode is outstanding. */
  lemma EndPointChangesExactly(s: Udp)
    requires Inv(s) && s.connected
    ensures CanOverwrite(s) <==> Unconnected(s) == 1
    ensures CanChange(s) <==> Unconnected(s) == 1
  {
    if Unconnected(s) == 0 {
      forall fs | Feasible(Step, s, fs) ensures Run(Step, s, fs).overwrites <= s.overwrites {
        OverwritesAfterConnect(s, fs);
      }
      forall fs | Feasible(Step, s, fs) && NoConnect(fs) ensures Run(Step, s, fs).peerEndPoint == s.peerEndPoint {
        EndPointSettles(s, fs);
      }
    } else {
      var e := Receives(0, [0], s.peerEndPoint + 1);
      assert Enabled(s, e);
      assert Feasible(Step, Step(s, e), []);
      Cons(Step, s, e, []);
    }
  }

  /** The one overwrite does happen: a receive issued before the connect reports its datagram's source
  after the connect handler stored the destination. */
  lemma ConnectCanBeOverwritten(limit: nat, size: nat, b: byte, dest: EndPoint, source: EndPoint) returns (es: seq<Event>)
    requires 0 < size < limit
    ensures Feasible(Step, Init(limit), es)
    ensures var s := Run(Step, Init(limit), es);
            s.connected && s.peerEndPoint == source && s.overwrites == 1 && ConnectAssigns(dest) in es
  {
    var setup := SetupChainedRead(size, true, seq(size, i => b));
    var datagram := Receives(0, [b], source);
    var s1 := Step(Init(limit), setup);
    var s2 := Step(s1, ConnectStores);
    var s3 := Step(s2, ConnectAssigns(dest));
    var s4 := Step(s3, datagram);
    assert Feasible(Step, s4, []);
    var last := [datagram] + [];
    Cons(Step, s3, datagram, []);
    Cons(Step, s2, ConnectAssigns(dest), last);
    Cons(Step, s1, ConnectStores, [ConnectAssigns(dest)] + last);
    es := [setup] + ([ConnectStores] + ([ConnectAssigns(dest)] + last));
    Cons(Step, Init(limit), setup, [ConnectStores] + ([ConnectAssigns(dest)] + last));
    assert es[2] == ConnectAssigns(dest);
  }
}
