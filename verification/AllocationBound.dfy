/** How much memory the receive buffer takes under the stress test's consumption policy
(TestServices/main.cpp:84-100, 119-134): consume a fixed amount whenever at least that much is
available.  The amount may shrink between notifications, as the test's main loop makes it do. */
module AllocationBound {
  import opened Bytes
  import opened Runs
  import R = ReceiveProtocol

  /** The buffer under test, and the size past which a notification ends the test. */
  datatype Stress = Stress(rx: R.Rx, compare: nat)

  /** One read completion and its notification: the bytes read, the amount to consume at that moment,
  and the content of the allocation the next read would obtain. */
  datatype Round = Round(bytes: seq<byte>, amount: nat, block: seq<byte>)

  /** The callback: past the compare size the test is declared finished and nothing is consumed. */
  function Notified(s: R.Rx, amount: nat, compare: nat): R.Rx
    requires s.size <= |s.memory|
  {
    if s.size > compare then s
    else if s.size >= amount then R.Step(s, R.Consume(amount))
    else s
  }

  predicate Reads(s: Stress, r: Round) {
    && r.bytes != [] && r.amount > 0
    && R.Enabled(s.rx, R.ReadCompletes(0, r.bytes))
    && s.rx.size + |r.bytes| <= |R.Step(s.rx, R.ReadCompletes(0, r.bytes)).memory|
  }

  /** The buffer after the read and the callback, just before the next read is issued. */
  function Handled(s: Stress, r: Round): R.Rx
    requires Reads(s, r)
  {
    Notified(R.Step(s.rx, R.ReadCompletes(0, r.bytes)), r.amount, s.compare)
  }

  predicate Enabled(s: Stress, r: Round) {
    Reads(s, r) && R.Enabled(Handled(s, r), R.CallbackReturns(r.block))
  }

  function Serve(s: Stress, r: Round): Stress
    requires Enabled(s, r)
  {
    s.(rx := R.Step(Handled(s, r), R.CallbackReturns(r.block)))
  }

  /** A `reserve` that allocates exactly what it is asked for. */
  function ServeExact(s: Stress, r: Round): Stress
    requires Enabled(s, r) && |r.block| == Handled(s, r).size + s.rx.chunk
  {
    Serve(s, r)
  }

  /** A buffer whose chained read has just been started with chunk size `c`. */
  function Started(limit: nat, c: nat, block: seq<byte>, compare: nat): Stress
    requires c > 0 && c <= |block|
  {
    Stress(R.Step(R.Init(limit), R.BeginChainedRead(c, true, block)), compare)
  }

  /** How many bytes the callback leaves. */
  function Left(s: Stress, r: Round): nat {
    var available := s.rx.size + |r.bytes|;
    if available <= s.compare && available >= r.amount then available - r.amount else available
  }

  /** What the read and the callback do. */
  lemma HandledEffect(s: Stress, r: Round)
    requires R.Inv(s.rx) && Reads(s, r)
    ensures var h := Handled(s, r);
            && R.Inv(h) && h.hasContext && h.pending == [] && h.size == Left(s, r)
            && h.chunk == s.rx.chunk && h.limit == s.rx.limit && h.alloc == s.rx.alloc
            && |h.memory| == |s.rx.memory| && s.rx.size + |r.bytes| <= |s.rx.memory|
  {
    R.CompletionKeepsInv(s.rx, 0, r.bytes);
    var announced := R.Step(s.rx, R.ReadCompletes(0, r.bytes));
    R.ConsumeKeepsInv(announced, r.amount);
  }

  /** What a round does to size, capacity and the number of allocations. */
  lemma RoundEffect(s: Stress, r: Round)
    requires R.Inv(s.rx) && Enabled(s, r)
    ensures var t := Serve(s, r).rx;
            && R.Inv(t) && 0 < |r.bytes| <= s.rx.chunk && s.rx.size + |r.bytes| <= |s.rx.memory|
            && t.size == Left(s, r) == Handled(s, r).size
            && t.chunk == s.rx.chunk && t.limit == s.rx.limit
            && (if !R.Exceeds(t) && t.size + t.chunk > |s.rx.memory|
                then t.alloc == s.rx.alloc + 1 && |t.memory| == |r.block| >= t.size + t.chunk
                else t.alloc == s.rx.alloc && |t.memory| == |s.rx.memory|)
            && (!R.Exceeds(t) ==> t.pending != [])
  {
    HandledEffect(s, r);
    R.BeginKeepsInv(Handled(s, r), R.CallbackReturns(r.block));
  }

  /** Every amount consumed lies between the chunk size and `most`. */
  predicate Amounts(rounds: seq<Round>, c: nat, most: nat) {
    forall r | r in rounds :: c <= r.amount <= most
  }

  /** What the policy keeps: less than `most` bytes live, capacity within the bound if it was exact. */
  ghost predicate Bounded(s: Stress, c: nat, most: nat, exact: bool) {
    && R.Inv(s.rx) && s.rx.chunk == c && s.rx.size < most && most + c - 1 <= s.compare
    && (exact ==> |s.rx.memory| <= most + c - 1)
    && s.rx.alloc <= most && (s.rx.alloc > 0 ==> s.rx.alloc + c - 1 <= |s.rx.memory|)
  }

  lemma RoundKeepsBound(s: Stress, r: Round, c: nat, most: nat, exact: bool)
    requires Bounded(s, c, most, exact) && Enabled(s, r) && c <= r.amount <= most
    requires exact ==> |r.block| == Handled(s, r).size + s.rx.chunk
    ensures Bounded(Serve(s, r), c, most, exact)
  {
    RoundEffect(s, r);
  }

  lemma StartedBound(limit: nat, c: nat, block: seq<byte>, compare: nat, most: nat)
    requires 0 < c <= most && c <= |block| && most + c - 1 <= compare
    ensures Bounded(Started(limit, c, block, compare), c, most, |block| == c)
  {
    R.StepKeepsInv(R.Init(limit), R.BeginChainedRead(c, true, block));
  }

  /** With exact allocation the capacity never exceeds `most + c - 1`, in every run, for every mix of
  read sizes and for amounts that change between rounds; so the test's own bound `most + c` holds, and
  no notification ever announces more than the compare size. */
  lemma CapacityBound(limit: nat, c: nat, block: seq<byte>, compare: nat, most: nat, rounds: seq<Round>)
    requires 0 < c <= most && |block| == c && most + c - 1 <= compare
    requires Feasible(ServeExact, Started(limit, c, block, compare), rounds) && Amounts(rounds, c, most)
    ensures var s := Run(ServeExact, Started(limit, c, block, compare), rounds).rx;
            |s.memory| <= most + c - 1 <= compare && s.size < most
  {
    StartedBound(limit, c, block, compare, most);
    var inv := (s: Stress) => Bounded(s, c, most, true);
    var allowed := (r: Round) => c <= r.amount <= most;
    forall s, r | inv(s) && allowed(r) && ServeExact.requires(s, r) ensures inv(ServeExact(s, r)) {
      RoundKeepsBound(s, r, c, most, true);
    }
    PreservedUnder(ServeExact, allowed, inv, Started(limit, c, block, compare), rounds);
  }

  /** Whatever the library allocates, an unbounded run performs at most `most` allocations. */
  lemma AllocationCount(limit: nat, c: nat, block: seq<byte>, compare: nat, most: nat, rounds: seq<Round>)
    requires 0 < c <= most && c <= |block| && most + c - 1 <= compare
    requires Feasible(Serve, Started(limit, c, block, compare), rounds) && Amounts(rounds, c, most)
    ensures Run(Serve, Started(limit, c, block, compare), rounds).rx.alloc <= most
  {
    StartedBound(limit, c, block, compare, most);
    var inv := (s: Stress) => Bounded(s, c, most, false);
    var allowed := (r: Round) => c <= r.amount <= most;
    forall s, r | inv(s) && allowed(r) && Serve.requires(s, r) ensures inv(Serve(s, r)) {
      RoundKeepsBound(s, r, c, most, false);
    }
    PreservedUnder(Serve, allowed, inv, Started(limit, c, block, compare), rounds);
  }

  /** Once a notification announced more than the compare size, the test is over: in no continuation is
  anything consumed. */
  lemma FinishedConsumesNothing(s: Stress, rounds: seq<Round>)
    requires R.Inv(s.rx) && s.rx.size > s.compare && Feasible(Serve, s, rounds)
    ensures var t := Run(Serve, s, rounds);
            t.rx.consumed == s.rx.consumed && t.rx.size >= s.rx.size
  {
    var inv := (t: Stress) =>
      R.Inv(t.rx) && t.compare == s.compare && t.rx.consumed == s.rx.consumed && t.rx.size >= s.rx.size;
    forall t, r | inv(t) && Serve.requires(t, r) ensures inv(Serve(t, r)) {
      RoundEffect(t, r);
    }
    Preserved(Serve, inv, s, rounds);
  }

  /** The capacity stays within `bound` in every run that always consumes `amount`. */
  ghost predicate StaysWithin(c: nat, amount: nat, compare: nat, bound: nat)
    requires c > 0
  {
    forall limit: nat, block: seq<byte>, rounds ::
      |block| == c && Feasible(ServeExact, Started(limit, c, block, compare), rounds) && Amounts(rounds, amount, amount)
      ==> |Run(ServeExact, Started(limit, c, block, compare), rounds).rx.memory| <= bound
  }

  /** A full read that leaves bytes behind can always be served next. */
  lemma FullRead(s: Stress, amount: nat, b: byte) returns (r: Round)
    requires R.Inv(s.rx) && s.rx.pending != [] && 0 < amount < s.rx.chunk
    requires s.rx.limit > s.rx.size + 2 * s.rx.chunk
    ensures r.amount == amount && ServeExact.requires(s, r)
    ensures var t := ServeExact(s, r).rx;
            && R.Inv(t) && t.pending != [] && t.chunk == s.rx.chunk && t.limit == s.rx.limit
            && s.rx.size < t.size <= s.rx.size + s.rx.chunk
  {
    var bytes := seq(s.rx.chunk, i => b);
    R.CompletionFits(s.rx, 0, bytes);
    var left := Left(s, Round(bytes, amount, []));
    r := Round(bytes, amount, seq(left + s.rx.chunk, i => b));
    HandledEffect(s, r);
    RoundEffect(s, r);
  }

  /** A run of full reads, each of which leaves bytes behind. */
  lemma {:induction false} FullReadsGrow(s: Stress, amount: nat, n: nat, b: byte) returns (rounds: seq<Round>)
    requires R.Inv(s.rx) && s.rx.pending != [] && 0 < amount < s.rx.chunk
    requires s.rx.limit > s.rx.size + (n + 2) * s.rx.chunk
    ensures Amounts(rounds, amount, amount) && Feasible(ServeExact, s, rounds)
    ensures |Run(ServeExact, s, rounds).rx.memory| >= s.rx.size + n + s.rx.chunk
    decreases n
  {
    rounds := [];
    if n > 0 {
      assert (n + 2) * s.rx.chunk == (n - 1 + 2) * s.rx.chunk + s.rx.chunk;
      assert (n + 1) * s.rx.chunk >= s.rx.chunk;
      var r := FullRead(s, amount, b);
      var rest := FullReadsGrow(ServeExact(s, r), amount, n - 1, b);
      Cons(ServeExact, s, r, rest);
      rounds := [r] + rest;
    }
  }

  /** The capacity is bounded at all exactly when a read is never larger than the amount consumed. */
  lemma BoundedExactly(c: nat, amount: nat, compare: nat, b: byte)
    requires c > 0 && amount > 0 && amount + c - 1 <= compare
    ensures (exists bound: nat :: StaysWithin(c, amount, compare, bound)) <==> c <= amount
  {
    if c <= amount {
      forall limit: nat, block: seq<byte>, rounds
        | |block| == c && Feasible(ServeExact, Started(limit, c, block, compare), rounds) && Amounts(rounds, amount, amount)
        ensures |Run(ServeExact, Started(limit, c, block, compare), rounds).rx.memory| <= amount + c - 1
      {
        CapacityBound(limit, c, block, compare, amount, rounds);
      }
      assert StaysWithin(c, amount, compare, amount + c - 1);
    } else {
      forall bound: nat
        ensures !StaysWithin(c, amount, compare, bound)
      {
        var block := seq(c, i => b);
        var limit := (bound + 2) * c + 1;
        assert limit > c;
        R.StepKeepsInv(R.Init(limit), R.BeginChainedRead(c, true, block));
        var rounds := FullReadsGrow(Started(limit, c, block, compare), amount, bound, b);
      }
    }
  }
}
