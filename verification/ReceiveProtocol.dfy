/** The receive buffer as a machine over values: every call on `IoCircularBuffer` and every read
completion is one step (IoServices/IoCircularBuffer.cpp, IoServices/IoCircularBuffer.h:97-106).

The allocation is kept as raw bytes, live or not, and an outstanding read is a window into one
particular allocation, so that it is a theorem and not an assumption that reads never overlap,
never write into a discarded allocation and never write outside one. */
module ReceiveProtocol {
  import opened Bytes
  import opened Runs

  /** The region an outstanding read may write: allocation number, first byte, length. */
  datatype Window = Window(alloc: nat, start: nat, len: nat)

  datatype Rx = Rx(
    memory: seq<byte>,      // the current allocation; its length is the capacity
    size: nat,              // how many bytes of it are live
    alloc: nat,             // number of the current allocation
    limit: nat,             // max_size()
    chained: bool,          // a notification callback is installed
    chunk: nat,
    shouldRead: bool,
    hasContext: bool,       // the notification callback is running
    pending: seq<Window>,   // outstanding reads
    received: seq<byte>,    // everything completions delivered
    consumed: seq<byte>)    // everything the application consumed
  {
    function Live(): seq<byte> {
      if size <= |memory| then memory[..size] else memory
    }
  }

  datatype Event =
    | BeginChainedRead(chunk: nat, immediate: bool, block: seq<byte>)
    | BeginReadSome(block: seq<byte>)
    | ReadCompletes(k: nat, bytes: seq<byte>)  // read k wrote bytes; up to the notification callback
    | Consume(len: nat)
    | CallbackReturns(block: seq<byte>)
    | CallbackThrows
    | ReadFails(k: nat)

  function Init(limit: nat): Rx {
    Rx([], 0, 0, limit, false, 0, false, false, [], [], [])
  }

  predicate Exceeds(s: Rx) {
    s.size + s.chunk >= s.limit
  }

  /** `block` is the raw content of the allocation that a `reserve` would obtain: of any size that
  suffices, holding any bytes. */
  predicate Grants(s: Rx, block: seq<byte>) {
    s.size <= |s.memory| && (Exceeds(s) || s.size + s.chunk <= |block|)
  }

  function Reserve(s: Rx, block: seq<byte>): Rx
    requires s.size <= |s.memory| && s.size + s.chunk <= |block|
  {
    if s.size + s.chunk > |s.memory|
    then s.(memory := s.memory[..s.size] + block[s.size..], alloc := s.alloc + 1)
    else s
  }

  /** `ReadSome`: throws without a trace when the buffer would exceed `max_size`. */
  function ReadSome(s: Rx, block: seq<byte>): Rx
    requires Grants(s, block)
  {
    if Exceeds(s) then s else
      var r := Reserve(s, block);
      r.(pending := r.pending + [Window(r.alloc, r.size, r.chunk)])
  }

  /** What the socket's raw write does to the current allocation: nothing when its window lies in
  another one. */
  function Written(s: Rx, w: Window, bytes: seq<byte>): seq<byte> {
    if w.alloc == s.alloc && w.start + |bytes| <= |s.memory|
    then s.memory[..w.start] + bytes + s.memory[w.start + |bytes|..]
    else s.memory
  }

  function Installed(s: Rx, chunk: nat, immediate: bool): Rx {
    s.(chained := true, chunk := chunk, shouldRead := immediate)
  }

  predicate Enabled(s: Rx, e: Event) {
    match e
    case BeginChainedRead(chunk, immediate, block) =>
      chunk > 0 && (!s.chained && immediate ==> Grants(Installed(s, chunk, immediate), block))
    case BeginReadSome(block) => s.chained && (!s.shouldRead ==> Grants(s, block))
    case ReadCompletes(k, bytes) => k < |s.pending| && |bytes| <= s.pending[k].len
    case Consume(len) => s.size <= |s.memory|
    case CallbackReturns(block) => s.hasContext && (s.shouldRead ==> Grants(s, block))
    case CallbackThrows => s.hasContext
    case ReadFails(k) => k < |s.pending|
  }

  function Step(s: Rx, e: Event): Rx
    requires Enabled(s, e)
  {
    match e
    case BeginChainedRead(chunk, immediate, block) =>
      if s.chained then s else  // throws: already in progress
        var r := Installed(s, chunk, immediate);
        if immediate then ReadSome(r, block) else r
    case BeginReadSome(block) =>
      if s.shouldRead then s else ReadSome(s.(shouldRead := true), block)
    case ReadCompletes(k, bytes) =>
      s.(memory := Written(s, s.pending[k], bytes), size := s.size + |bytes|,
         pending := Without(s.pending, k), hasContext := bytes != [], received := s.received + bytes)
    case Consume(len) =>
      if !s.hasContext || len > s.size then s else  // throws
        s.(memory := s.memory[len..s.size] + s.memory[s.size - len..], size := s.size - len,
           consumed := s.consumed + s.memory[..len])
    case CallbackReturns(block) =>
      var r := s.(hasContext := false);
      if r.shouldRead then ReadSome(r, block) else r
    case CallbackThrows => s.(hasContext := false)
    case ReadFails(k) => s.(pending := Without(s.pending, k), shouldRead := false)
  }

  /** `after` is what event `e` makes of `before`. */
  predicate Takes(before: Rx, e: Event, after: Rx) {
    Enabled(before, e) && after == Step(before, e)
  }

  /** What holds between any two calls: the bytes received are the bytes consumed followed by the
  live ones; at most one read is outstanding, its window is the spare area right behind the live
  bytes of the current allocation, even full it would keep the buffer below `max_size`, and meanwhile
  no callback runs. */
  ghost predicate Inv(s: Rx) {
    && s.size <= |s.memory|
    && s.consumed + s.Live() == s.received
    && |s.pending| <= 1
    && (s.pending != [] ==>
          && s.pending[0] == Window(s.alloc, s.size, s.chunk)
          && s.size + s.chunk <= |s.memory| && s.size + s.chunk < s.limit
          && s.shouldRead && !s.hasContext)
    && (s.hasContext ==> s.shouldRead)
    && (s.shouldRead ==> s.chained)
    && (s.chained ==> s.chunk > 0)
  }

  /** A callback is installed, but reading is not on. */
  predicate Off(s: Rx) {
    s.chained && !s.shouldRead && s.pending == [] && !s.hasContext
  }

  /** Starting a chain: at once, a read for a chunk is issued exactly when it fits below `max_size`, and
  else the buffer is stalled; deferred, reading stays off, and `BeginReadSome` issues the read exactly
  when it fits. */
  lemma StartExactly(s: Rx, chunk: nat, immediate: bool, block: seq<byte>, later: seq<byte>)
    requires Inv(s) && !s.chained && Enabled(s, BeginChainedRead(chunk, immediate, block))
    ensures var t := Step(s, BeginChainedRead(chunk, immediate, block));
            && Inv(t) && t.chained && t.chunk == chunk && t.Live() == s.Live()
            && (immediate && s.size + chunk < s.limit ==> t.pending == [Window(t.alloc, s.size, chunk)])
            && (immediate && s.size + chunk >= s.limit ==> Stalled(t))
            && (!immediate ==> Off(t))
            && (!immediate && Enabled(t, BeginReadSome(later)) ==>
                  (Step(t, BeginReadSome(later)).pending != [] <==> s.size + chunk < s.limit))
  {
    StepKeepsInv(s, BeginChainedRead(chunk, immediate, block));
  }

  /** Once installed, chunk size and `max_size` are final; a second `BeginChainedRead` changes nothing. */
  lemma InstalledForGood(s: Rx, es: seq<Event>)
    requires s.chained && Feasible(Step, s, es)
    ensures var t := Run(Step, s, es);
            t.chained && t.chunk == s.chunk && t.limit == s.limit
    ensures forall chunk, immediate, block | Enabled(Run(Step, s, es), BeginChainedRead(chunk, immediate, block)) ::
              Step(Run(Step, s, es), BeginChainedRead(chunk, immediate, block)) == Run(Step, s, es)
  {
    var inv := (t: Rx) => t.chained && t.chunk == s.chunk && t.limit == s.limit;
    forall t, e | inv(t) && Enabled(t, e) ensures inv(Step(t, e)) {
    }
    Preserved(Step, inv, s, es);
  }

  /** Outside a callback, and for more than there is, nothing is consumed: in any state an event takes
  something exactly when it is a `Consume` of the callback, for something that is there. */
  lemma ConsumedExactly(s: Rx, e: Event)
    requires Inv(s) && Enabled(s, e)
    ensures var t := Step(s, e);
            && t.consumed == s.consumed + (if e.Consume? && s.hasContext && e.len <= s.size then s.Live()[..e.len] else [])
            && |t.consumed| + t.size == |t.received|
  {
    StepKeepsInv(s, e);
    if e.Consume? && s.hasContext && e.len <= s.size {
      ConsumeTakesFront(s, e.len);
    }
  }

  lemma ReadSomeKeepsInv(s: Rx, block: seq<byte>)
    requires Inv(s) && Grants(s, block) && s.pending == [] && !s.hasContext && s.shouldRead
    ensures Inv(ReadSome(s, block))
    ensures ReadSome(s, block).Live() == s.Live()
  {
  }

  /** The assertion in `ReadSomeHandler` never fails, and the bytes the socket wrote into spare
  memory are exactly the bytes that become live. */
  lemma CompletionFits(s: Rx, k: nat, bytes: seq<byte>)
    requires Inv(s) && Enabled(s, ReadCompletes(k, bytes))
    ensures s.size + |bytes| <= |s.memory|
    ensures Step(s, ReadCompletes(k, bytes)).Live() == s.Live() + bytes
  {
    var w := s.pending[k];
    var m := Written(s, w, bytes);
    assert m[..s.size + |bytes|] == s.memory[..s.size] + bytes;
  }

  lemma ConsumeTakesFront(s: Rx, len: nat)
    requires Inv(s) && s.hasContext && len <= s.size
    ensures Step(s, Consume(len)).Live() == s.Live()[len..]
    ensures Step(s, Consume(len)).consumed == s.consumed + s.Live()[..len]
    ensures |Step(s, Consume(len)).memory| == |s.memory|
  {
    var m := s.memory[len..s.size] + s.memory[s.size - len..];
    assert m[..s.size - len] == s.memory[..s.size][len..];
    assert s.memory[..len] == s.Live()[..len];
  }

  lemma ConsumeKeepsInv(s: Rx, len: nat)
    requires Inv(s)
    ensures Inv(Step(s, Consume(len))) && |Step(s, Consume(len)).memory| == |s.memory|
  {
    if s.hasContext && len <= s.size {
      ConsumeTakesFront(s, len);
      var live := s.Live();
      assert live == live[..len] + live[len..];
      AppendAssociative(s.consumed, live[..len], live[len..]);
    }
  }

  lemma CompletionKeepsInv(s: Rx, k: nat, bytes: seq<byte>)
    requires Inv(s) && Enabled(s, ReadCompletes(k, bytes))
    ensures var t := Step(s, ReadCompletes(k, bytes));
            Inv(t) && |s.memory| == |t.memory|
  {
    CompletionFits(s, k, bytes);
    assert s.consumed + (s.Live() + bytes) == s.received + bytes;
  }

  lemma BeginKeepsInv(s: Rx, e: Event)
    requires Inv(s) && Enabled(s, e) && (e.BeginChainedRead? || e.BeginReadSome? || e.CallbackReturns?)
    ensures Inv(Step(s, e)) && |s.memory| <= |Step(s, e).memory|
  {
    match e
    case BeginChainedRead(chunk, immediate, block) =>
      if !s.chained && immediate {
        ReadSomeKeepsInv(Installed(s, chunk, immediate), block);
      }
    case BeginReadSome(block) =>
      if !s.shouldRead {
        ReadSomeKeepsInv(s.(shouldRead := true), block);
      }
    case CallbackReturns(block) => ReadSomeKeepsInv(s.(hasContext := false), block);
  }

  lemma StepKeepsInv(s: Rx, e: Event)
    requires Inv(s) && Enabled(s, e)
    ensures Inv(Step(s, e))
    ensures |s.memory| <= |Step(s, e).memory|
  {
    match e
    case ReadCompletes(k, bytes) => CompletionKeepsInv(s, k, bytes);
    case Consume(len) => ConsumeKeepsInv(s, len);
    case CallbackThrows =>
    case ReadFails(k) =>
    case _ => BeginKeepsInv(s, e);
  }

  lemma ReachableInv(limit: nat, es: seq<Event>)
    requires Feasible(Step, Init(limit), es)
    ensures Inv(Run(Step, Init(limit), es))
  {
    forall t, e | Inv(t) && Enabled(t, e) ensures Inv(Step(t, e)) {
      StepKeepsInv(t, e);
    }
    Preserved(Step, Inv, Init(limit), es);
  }

  /** The bytes that the completions among `es` delivered, in order. */
  function Arrivals(es: seq<Event>): seq<byte> {
    if es == [] then [] else ArrivesBy(es[0]) + Arrivals(es[1..])
  }

  function ArrivesBy(e: Event): seq<byte> {
    if e.ReadCompletes? then e.bytes else []
  }

  lemma StepReceives(s: Rx, e: Event)
    requires Enabled(s, e)
    ensures Step(s, e).received == s.received + ArrivesBy(e)
  {
  }

  lemma {:induction false} ReceivedIsArrivals(s: Rx, es: seq<Event>)
    requires Feasible(Step, s, es)
    ensures Run(Step, s, es).received == s.received + Arrivals(es)
    decreases |es|
  {
    if es != [] {
      StepReceives(s, es[0]);
      ReceivedIsArrivals(Step(s, es[0]), es[1..]);
      AppendAssociative(s.received, ArrivesBy(es[0]), Arrivals(es[1..]));
    }
  }

  /** The buffer is a FIFO: in every run, what was consumed followed by what is live is what the
  socket delivered, across reallocation, growth over raw spare memory and in-place shifting. */
  lemma Fifo(limit: nat, es: seq<Event>)
    requires Feasible(Step, Init(limit), es)
    ensures var s := Run(Step, Init(limit), es);
            s.consumed + s.Live() == Arrivals(es)
  {
    ReachableInv(limit, es);
    ReceivedIsArrivals(Init(limit), es);
  }

  /** While a read is outstanding nothing but its own completion changes anything: neither the size
  nor the allocation moves under the socket, and no second read is issued. */
  lemma OutstandingReadFreezes(s: Rx, e: Event)
    requires Inv(s) && Enabled(s, e) && s.pending != []
    requires !e.ReadCompletes? && !e.ReadFails?
    ensures Step(s, e) == s
  {
  }

  /** Reading is wanted, but no read is outstanding and no callback runs. */
  predicate Stalled(s: Rx) {
    s.chained && s.shouldRead && s.pending == [] && !s.hasContext
  }

  /** A throwing callback, an empty completion, or a read that would exceed `max_size`, chained or asked
  for, stalls the buffer. */
  lemma ThrowStalls(s: Rx, e: Event)
    requires Inv(s) && Enabled(s, e)
    requires e.CallbackThrows? || (e.CallbackReturns? && Exceeds(s)) || (e.ReadCompletes? && e.bytes == [])
             || (e.BeginReadSome? && Off(s) && Exceeds(s))
    ensures Stalled(Step(s, e))
  {
  }

  /** A stalled buffer stays exactly as it is in every run: not even `BeginReadSome` restarts it. */
  lemma StalledForever(s: Rx, es: seq<Event>)
    requires Stalled(s) && Feasible(Step, s, es)
    ensures Run(Step, s, es) == s
  {
    forall t, e | t == s && Enabled(t, e) ensures Step(t, e) == s {
    }
    Preserved(Step, (t: Rx) => t == s, s, es);
  }

  /** After a failed read, unlike after a throw, `BeginReadSome` starts reading again. */
  lemma FailureCanRestart(s: Rx, k: nat, block: seq<byte>)
    requires Inv(s) && Enabled(s, ReadFails(k)) && Enabled(Step(s, ReadFails(k)), BeginReadSome(block))
    ensures var t := Step(Step(s, ReadFails(k)), BeginReadSome(block));
            t.pending != [] && Inv(t)
  {
    StepKeepsInv(s, ReadFails(k));
    StepKeepsInv(Step(s, ReadFails(k)), BeginReadSome(block));
  }

  /** A read is outstanding or being handled. */
  predicate Active(s: Rx) {
    s.pending != [] || s.hasContext
  }

  /** As long as callbacks return and capacity suffices, an active chain stays active until a read
  fails. */
  lemma ChainStaysActive(s: Rx, e: Event)
    requires Inv(s) && Enabled(s, e) && Active(s)
    ensures Active(Step(s, e)) <==>
            !(e.CallbackThrows? || e.ReadFails? || (e.CallbackReturns? && Exceeds(s)) || (e.ReadCompletes? && e.bytes == []))
  {
  }

  /** In some continuation a read is outstanding. */
  ghost predicate CanRead(s: Rx) {
    exists es :: Feasible(Step, s, es) && Run(Step, s, es).pending != []
  }

  /** A chunk fits into an empty buffer. */
  predicate FitsWhenEmpty(s: Rx) {
    Active(s) ==> s.chunk < s.limit
  }

  lemma ReachableFits(limit: nat, es: seq<Event>)
    requires Feasible(Step, Init(limit), es)
    ensures Inv(Run(Step, Init(limit), es)) && FitsWhenEmpty(Run(Step, Init(limit), es))
  {
    var inv := (t: Rx) => Inv(t) && FitsWhenEmpty(t);
    forall t, e | inv(t) && Enabled(t, e) ensures inv(Step(t, e)) {
      StepKeepsInv(t, e);
    }
    Preserved(Step, inv, Init(limit), es);
  }

  lemma CallbackCanDrain(s: Rx)
    requires Inv(s) && s.hasContext && s.chunk < s.limit
    ensures CanRead(s)
  {
    var drained := Step(s, Consume(s.size));
    ConsumeKeepsInv(s, s.size);
    var block := seq(s.chunk, i => 0);
    var e := CallbackReturns(block);
    assert Step(drained, e).pending != [];
    assert Feasible(Step, Step(drained, e), []);
    Cons(Step, drained, e, []);
    Cons(Step, s, Consume(s.size), [e] + []);
  }

  /** Reading never resumes in a state that cannot issue a read. */
  lemma NeverReads(s: Rx, es: seq<Event>)
    requires Inv(s) && s.chained && !Active(s) && (s.shouldRead || Exceeds(s)) && Feasible(Step, s, es)
    ensures Run(Step, s, es).pending == []
  {
    var inv := (t: Rx) => Inv(t) && t.chained && !Active(t) && (t.shouldRead || Exceeds(t));
    forall t, e | inv(t) && Enabled(t, e) ensures inv(Step(t, e)) {
      StepKeepsInv(t, e);
    }
    Preserved(Step, inv, s, es);
  }

  /** In every reachable state with a callback installed, reading goes on or can be started again
  exactly when it is going on now, or the chain is off and the next chunk fits: a chain that a throw
  stopped is never off. */
  lemma ReadsAgainExactly(limit: nat, es: seq<Event>)
    requires Feasible(Step, Init(limit), es) && Run(Step, Init(limit), es).chained
    ensures var s := Run(Step, Init(limit), es);
            CanRead(s) <==> Active(s) || (!s.shouldRead && !Exceeds(s))
  {
    ReachableFits(limit, es);
    var s := Run(Step, Init(limit), es);
    if s.hasContext {
      CallbackCanDrain(s);
    } else if s.pending != [] {
      assert Feasible(Step, s, []);
      assert Run(Step, s, []) == s;
    } else if !s.shouldRead && !Exceeds(s) {
      var e := BeginReadSome(seq(s.size + s.chunk, i => 0));
      assert Feasible(Step, Step(s, e), []);
      Cons(Step, s, e, []);
    } else {
      forall fs | Feasible(Step, s, fs) ensures Run(Step, s, fs).pending == [] {
        NeverReads(s, fs);
      }
    }
  }
}
