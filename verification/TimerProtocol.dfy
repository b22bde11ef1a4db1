/** One periodic timer (IoServices/IoServicesImpl.cpp:327-364): setting it aborts the wait that is
armed and arms a new one; an expired wait runs the handler and then sets the timer again.

A wait that has expired stays queued until a thread runs its completion; cancelling the timer does not
reach it, nor a handler that is running. */
module TimerProtocol {
  import opened Bytes
  import opened Runs

  type Handler = nat

  datatype Timer = Timer(
    armed: seq<Handler>,     // waits that can still expire
    expired: seq<Handler>,   // completions of expired waits, queued
    aborted: seq<Handler>,   // completions of aborted waits, queued
    running: seq<Handler>,   // handlers being run
    calls: seq<Handler>)     // the handlers called so far

  datatype Event =
    | Set(h: Handler)
    | Cancel
    | Expires(k: nat)
    | AbortedCompletes(k: nat)
    | ExpiredCompletes(k: nat)   // the completion calls the handler
    | HandlerReturns(k: nat)     // and the completion sets the timer again
    | HandlerThrows(k: nat)

  function Init(): Timer {
    Timer([], [], [], [], [])
  }

  /** `cancel`: armed waits complete as aborted. */
  function Abort(s: Timer): Timer {
    s.(armed := [], aborted := s.aborted + s.armed)
  }

  /** `expires_from_now` cancels, `async_wait` arms. */
  function Arm(s: Timer, h: Handler): Timer {
    var r := Abort(s);
    r.(armed := r.armed + [h])
  }

  predicate Enabled(s: Timer, e: Event) {
    match e
    case Expires(k) => k < |s.armed|
    case AbortedCompletes(k) => k < |s.aborted|
    case ExpiredCompletes(k) => k < |s.expired|
    case HandlerReturns(k) => k < |s.running|
    case HandlerThrows(k) => k < |s.running|
    case _ => true
  }

  function Step(s: Timer, e: Event): Timer
    requires Enabled(s, e)
  {
    match e
    case Set(h) => Arm(s, h)
    case Cancel => Abort(s)
    case Expires(k) => s.(armed := Without(s.armed, k), expired := s.expired + [s.armed[k]])
    case AbortedCompletes(k) => s.(aborted := Without(s.aborted, k))
    case ExpiredCompletes(k) =>
      s.(expired := Without(s.expired, k), running := s.running + [s.expired[k]],
         calls := s.calls + [s.expired[k]])
    case HandlerReturns(k) => Arm(s.(running := Without(s.running, k)), s.running[k])
    case HandlerThrows(k) => s.(running := Without(s.running, k))
  }

  /** In every run at most one wait is armed, however often the timer is set and re-armed. */
  lemma OneWait(es: seq<Event>)
    requires Feasible(Step, Init(), es)
    ensures |Run(Step, Init(), es).armed| <= 1
  {
    var inv := (t: Timer) => |t.armed| <= 1;
    forall t, e | inv(t) && Enabled(t, e) ensures inv(Step(t, e)) {
    }
    Preserved(Step, inv, Init(), es);
  }

  /** How many handler calls are still on their way: each armed or expired wait and each running
  handler carries one chain of re-arming. */
  function Chains(s: Timer): nat {
    |s.armed| + |s.expired| + |s.running|
  }

  predicate NoSet(es: seq<Event>) {
    forall e | e in es :: !e.Set?
  }

  /** Without a set by the user no chain ever starts, and a handler that throws ends its own. */
  lemma ChainsNeverGrow(s: Timer, e: Event)
    requires Enabled(s, e) && !e.Set?
    ensures Chains(Step(s, e)) <= Chains(s)
    ensures e.HandlerThrows? ==> Chains(Step(s, e)) == Chains(s) - 1
    ensures e.ExpiredCompletes? ==> Chains(s) > 0
    ensures !e.ExpiredCompletes? ==> Step(s, e).calls == s.calls
  {
  }

  /** Aborted completions never call a handler: without a chain nothing does, in any run until the
  next set. */
  lemma SilentWithoutChain(s: Timer, es: seq<Event>)
    requires Chains(s) == 0 && Feasible(Step, s, es) && NoSet(es)
    ensures Run(Step, s, es).calls == s.calls
  {
    var inv := (t: Timer) => Chains(t) == 0 && t.calls == s.calls;
    var allowed := (e: Event) => !e.Set?;
    forall t, e | inv(t) && allowed(e) && Enabled(t, e) ensures inv(Step(t, e)) {
      ChainsNeverGrow(t, e);
    }
    PreservedUnder(Step, allowed, inv, s, es);
  }

  /** A chain can go on for any number of calls. */
  lemma {:induction false} ChainGoesOn(s: Timer, n: nat) returns (es: seq<Event>)
    requires Chains(s) > 0
    ensures Feasible(Step, s, es) && NoSet(es) && |Run(Step, s, es).calls| == |s.calls| + n
    decreases n, if s.expired != [] then 0 else if s.armed != [] then 1 else 2
  {
    es := [];
    if n > 0 {
      var e := if s.expired != [] then ExpiredCompletes(0) else if s.armed != [] then Expires(0) else HandlerReturns(0);
      var rest := ChainGoesOn(Step(s, e), if e.ExpiredCompletes? then n - 1 else n);
      Cons(Step, s, e, rest);
      es := [e] + rest;
    }
  }

  /** No handler is called in any continuation without a new set. */
  ghost predicate Silenced(s: Timer) {
    forall es | Feasible(Step, s, es) && NoSet(es) :: Run(Step, s, es).calls == s.calls
  }

  lemma SilencedExactly(s: Timer)
    ensures Silenced(s) <==> Chains(s) == 0
  {
    if Chains(s) == 0 {
      forall es | Feasible(Step, s, es) && NoSet(es) ensures Run(Step, s, es).calls == s.calls {
        SilentWithoutChain(s, es);
      }
    } else {
      var es := ChainGoesOn(s, 1);
    }
  }

  /** Cancelling stops the handler exactly when no expired completion is queued and no handler is
  running at that moment; in particular a cancel made by the handler itself has no effect. */
  lemma CancelExactly(s: Timer)
    ensures Silenced(Step(s, Cancel)) <==> s.expired == [] && s.running == []
  {
    SilencedExactly(Step(s, Cancel));
  }

  /** A handler that throws is never called again exactly when nothing else was on its way. */
  lemma ThrowExactly(s: Timer, k: nat)
    requires Enabled(s, HandlerThrows(k))
    ensures Silenced(Step(s, HandlerThrows(k))) <==> s.armed == [] && s.expired == [] && s.running == [s.running[k]]
  {
    SilencedExactly(Step(s, HandlerThrows(k)));
  }

  predicate All(hs: seq<Handler>, h: Handler) {
    forall i | 0 <= i < |hs| :: hs[i] == h
  }

  /** Every handler on its way is `h`. */
  predicate Carries(s: Timer, h: Handler) {
    All(s.armed, h) && All(s.expired, h) && All(s.running, h)
  }

  lemma StepCarries(s: Timer, e: Event, h: Handler)
    requires Carries(s, h) && Enabled(s, e) && !e.Set?
    ensures Carries(Step(s, e), h)
  {
  }

  /** `calls` went on with calls of `h` only. */
  predicate Extends(calls: seq<Handler>, later: seq<Handler>, h: Handler) {
    calls <= later && forall i | |calls| <= i < |later| :: later[i] == h
  }

  /** In every continuation without a new set only `h` is called. */
  ghost predicate OnlyCalls(s: Timer, h: Handler) {
    forall es | Feasible(Step, s, es) && NoSet(es) :: Extends(s.calls, Run(Step, s, es).calls, h)
  }

  lemma CarriersCall(s: Timer, h: Handler, es: seq<Event>)
    requires Carries(s, h) && Feasible(Step, s, es) && NoSet(es)
    ensures Extends(s.calls, Run(Step, s, es).calls, h)
  {
    var inv := (t: Timer) => Carries(t, h) && Extends(s.calls, t.calls, h);
    var allowed := (e: Event) => !e.Set?;
    forall t, e | inv(t) && allowed(e) && Enabled(t, e) ensures inv(Step(t, e)) {
      StepCarries(t, e, h);
    }
    PreservedUnder(Step, allowed, inv, s, es);
  }

  /** Handler `x` is next, whichever way it is carried. */
  lemma {:induction false} CanCall(s: Timer, x: Handler) returns (es: seq<Event>)
    requires x in s.armed || x in s.expired || x in s.running
    ensures Feasible(Step, s, es) && NoSet(es) && Run(Step, s, es).calls == s.calls + [x]
    decreases if x in s.expired then 0 else if x in s.armed then 1 else 2
  {
    if x in s.expired {
      var k :| 0 <= k < |s.expired| && s.expired[k] == x;
      assert Feasible(Step, Step(s, ExpiredCompletes(k)), []);
      Cons(Step, s, ExpiredCompletes(k), []);
      es := [ExpiredCompletes(k)] + [];
    } else {
      var e;
      if x in s.armed {
        var k :| 0 <= k < |s.armed| && s.armed[k] == x;
        e := Expires(k);
      } else {
        var k :| 0 <= k < |s.running| && s.running[k] == x;
        e := HandlerReturns(k);
      }
      var rest := CanCall(Step(s, e), x);
      Cons(Step, s, e, rest);
      es := [e] + rest;
    }
  }

  lemma OnlyCallsExactly(s: Timer, h: Handler)
    ensures OnlyCalls(s, h) <==> Carries(s, h)
  {
    if Carries(s, h) {
      forall es | Feasible(Step, s, es) && NoSet(es) ensures Extends(s.calls, Run(Step, s, es).calls, h) {
        CarriersCall(s, h, es);
      }
    } else {
      var all := s.armed + s.expired + s.running;
      assert exists i | 0 <= i < |all| :: all[i] != h by {
        if !All(s.armed, h) {
          var i :| 0 <= i < |s.armed| && s.armed[i] != h;
          assert all[i] != h;
        } else if !All(s.expired, h) {
          var i :| 0 <= i < |s.expired| && s.expired[i] != h;
          assert all[|s.armed| + i] != h;
        } else {
          var i :| 0 <= i < |s.running| && s.running[i] != h;
          assert all[|s.armed| + |s.expired| + i] != h;
        }
      }
      var i :| 0 <= i < |all| && all[i] != h;
      var x := all[i];
      var es := CanCall(s, x);
      assert (s.calls + [x])[|s.calls|] == x;
    }
  }

  /** After a set only the new handler is called, until the next set, exactly when every expired
  completion still queued and every handler still running is that handler already: a stale one sets
  itself again, which aborts the new wait. */
  lemma SetExactly(s: Timer, h: Handler)
    ensures OnlyCalls(Step(s, Set(h)), h) <==> All(s.expired, h) && All(s.running, h)
  {
    OnlyCallsExactly(Step(s, Set(h)), h);
  }

  /** `x` is armed, expired or running. */
  predicate IsCarried(s: Timer, x: Handler) {
    x in s.armed || x in s.expired || x in s.running
  }

  /** The very next handler called can be `x`, without a new set. */
  ghost predicate CanCallNext(s: Timer, x: Handler) {
    exists es :: Feasible(Step, s, es) && NoSet(es) && Run(Step, s, es).calls == s.calls + [x]
  }

  lemma WithoutKeeps<T>(ts: seq<T>, k: nat)
    requires k < |ts|
    ensures forall x | x in Without(ts, k) :: x in ts
  {
  }

  /** Without a set, what is carried was carried before, and so was every handler called. */
  lemma StepCallsCarried(s: Timer, e: Event)
    requires Enabled(s, e) && !e.Set?
    ensures forall x | IsCarried(Step(s, e), x) :: IsCarried(s, x)
    ensures s.calls <= Step(s, e).calls
    ensures forall i | |s.calls| <= i < |Step(s, e).calls| :: IsCarried(s, Step(s, e).calls[i])
  {
    match e
    case Expires(k) => WithoutKeeps(s.armed, k);
    case ExpiredCompletes(k) => WithoutKeeps(s.expired, k);
    case HandlerReturns(k) => WithoutKeeps(s.running, k);
    case HandlerThrows(k) => WithoutKeeps(s.running, k);
    case _ =>
  }

  /** All that was called since `calls`, and all that is carried now, was carried by `s`. */
  ghost predicate FromCarried(s: Timer, t: Timer) {
    && (forall x | IsCarried(t, x) :: IsCarried(s, x))
    && s.calls <= t.calls
    && (forall i | |s.calls| <= i < |t.calls| :: IsCarried(s, t.calls[i]))
  }

  lemma OnlyCarriedIsCalled(s: Timer, es: seq<Event>)
    requires Feasible(Step, s, es) && NoSet(es)
    ensures FromCarried(s, Run(Step, s, es))
  {
    var allowed := (e: Event) => !e.Set?;
    forall t, e | FromCarried(s, t) && allowed(e) && Enabled(t, e) ensures FromCarried(s, Step(t, e)) {
      StepCallsCarried(t, e);
    }
    PreservedUnder(Step, allowed, t => FromCarried(s, t), s, es);
  }

  /** A handler can be the next one called exactly when a wait of its is armed or expired, or it is
  running and will set itself again. */
  lemma NextCallExactly(s: Timer, x: Handler)
    ensures CanCallNext(s, x) <==> IsCarried(s, x)
  {
    if IsCarried(s, x) {
      var es := CanCall(s, x);
    } else {
      forall es | Feasible(Step, s, es) && NoSet(es) ensures Run(Step, s, es).calls != s.calls + [x] {
        OnlyCarriedIsCalled(s, es);
        assert (s.calls + [x])[|s.calls|] == x;
      }
    }
  }

  /** A timer that was set can call its handler next, whatever was under way. */
  lemma SetArms(s: Timer, h: Handler)
    ensures CanCallNext(Step(s, Set(h)), h)
  {
    NextCallExactly(Step(s, Set(h)), h);
  }

  function Count(es: seq<Event>, counts: Event -> bool): nat {
    if es == [] then 0 else (if counts(es[0]) then 1 else 0) + Count(es[1..], counts)
  }

  predicate ArmsWait(e: Event) {
    e.Set? || e.HandlerReturns?
  }

  predicate CompletesWait(e: Event) {
    e.AbortedCompletes? || e.ExpiredCompletes?
  }

  predicate CallsHandler(e: Event) {
    e.ExpiredCompletes?
  }

  predicate EndsHandler(e: Event) {
    e.HandlerReturns? || e.HandlerThrows?
  }

  /** Waits not completed yet. */
  function Waits(s: Timer): nat {
    |s.armed| + |s.expired| + |s.aborted|
  }

  lemma {:induction false} RunConserves(s: Timer, es: seq<Event>)
    requires Feasible(Step, s, es)
    ensures Waits(Run(Step, s, es)) + Count(es, CompletesWait) == Waits(s) + Count(es, ArmsWait)
    ensures |Run(Step, s, es).running| + Count(es, EndsHandler) == |s.running| + Count(es, CallsHandler)
    ensures |Run(Step, s, es).calls| == |s.calls| + Count(es, CallsHandler)
    decreases |es|
  {
    if es != [] {
      RunConserves(Step(s, es[0]), es[1..]);
    }
  }

  /** No completion is lost or invented: in every run each wait armed, by a set or a handler that
  returned, is still to come or has completed once; and each expired completion calls one handler, which
  is running or over. */
  lemma EachWaitCompletesOnce(es: seq<Event>)
    requires Feasible(Step, Init(), es)
    ensures var s := Run(Step, Init(), es);
            && Count(es, ArmsWait) == |s.armed| + |s.expired| + |s.aborted| + Count(es, CompletesWait)
            && |s.calls| == |s.running| + Count(es, EndsHandler)
  {
    RunConserves(Init(), es);
  }
}
