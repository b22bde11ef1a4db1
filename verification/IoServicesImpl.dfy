/** The services object's worker counter and timer table (IoServices/IoServicesImpl.cpp:30-36, 59-82,
304-371).  The counter's methods are steps of `WorkerProtocol`, the timers' methods steps of
`TimerProtocol` on the entry they name; what the calls mean for the application is stated beside it. */
module IoServicesImpl {
  import opened Bytes
  import WP = WorkerProtocol
  import TP = TimerProtocol

  type TimerId = nat

  /** A call on, or a completion of, one timer. */
  datatype TimerCall = TimerCall(id: TimerId, e: TP.Event)

  /** A handler that was called for a timer. */
  datatype Fired = Fired(id: TimerId, handler: TP.Handler)

  /** No timer has two waits armed. */
  predicate OneWaitEach(timers: map<TimerId, TP.Timer>) {
    forall id | id in timers :: |timers[id].armed| <= 1
  }

  predicate NotSet(calls: seq<TimerCall>, id: TimerId) {
    forall call | call in calls :: call.id == id ==> !call.e.Set?
  }

  /** Nothing of timer `id` fired. */
  predicate NoneFired(fired: seq<Fired>, id: TimerId) {
    forall f | f in fired :: f.id != id
  }

  /** Only `h` fired for timer `id`. */
  predicate OnlyFired(fired: seq<Fired>, id: TimerId, h: TP.Handler) {
    forall f | f in fired :: f.id == id ==> f.handler == h
  }

  /** The timer table after event `e` of timer `id`: unchanged if the event cannot happen. */
  function AfterCall(timers: map<TimerId, TP.Timer>, id: TimerId, e: TP.Event): map<TimerId, TP.Timer> {
    if id in timers && TP.Enabled(timers[id], e) then timers[id := TP.Step(timers[id], e)] else timers
  }

  /** The timer table after `calls`. */
  function AfterCalls(timers: map<TimerId, TP.Timer>, calls: seq<TimerCall>): map<TimerId, TP.Timer> {
    if calls == [] then timers else
      var last := calls[|calls| - 1];
      AfterCall(AfterCalls(timers, calls[..|calls| - 1]), last.id, last.e)
  }

  lemma AfterOneMore(timers: map<TimerId, TP.Timer>, calls: seq<TimerCall>, call: TimerCall)
    ensures AfterCalls(timers, calls + [call]) == AfterCall(AfterCalls(timers, calls), call.id, call.e)
  {
    assert (calls + [call])[..|calls|] == calls;
  }

  /** The handlers that fired for timer `id`. */
  function HandlersOf(fired: seq<Fired>, id: TimerId): seq<TP.Handler> {
    if fired == [] then [] else
      var last := fired[|fired| - 1];
      HandlersOf(fired[..|fired| - 1], id) + if last.id == id then [last.handler] else []
  }

  /** What the event makes the service call. */
  function FiredBy(timers: map<TimerId, TP.Timer>, id: TimerId, e: TP.Event): seq<Fired> {
    if id in timers && TP.Enabled(timers[id], e) && e.ExpiredCompletes? then [Fired(id, timers[id].expired[e.k])] else []
  }

  /** `fired` is what the timers called since the table was `before`. */
  ghost predicate Logged(before: map<TimerId, TP.Timer>, now: map<TimerId, TP.Timer>, fired: seq<Fired>) {
    && before.Keys == now.Keys
    && (forall id | id in before :: now[id].calls == before[id].calls + HandlersOf(fired, id))
  }

  lemma LoggedStep(before: map<TimerId, TP.Timer>, now: map<TimerId, TP.Timer>, fired: seq<Fired>, id: TimerId, e: TP.Event)
    requires Logged(before, now, fired)
    ensures Logged(before, AfterCall(now, id, e), fired + FiredBy(now, id, e))
  {
    var more := FiredBy(now, id, e);
    if more != [] {
      assert (fired + more)[..|fired|] == fired;
    } else {
      assert fired + more == fired;
    }
  }

  /** Since the timer was `t`, and now it is `u`, it fired only what it carried. */
  ghost predicate FiredCarried(t: TP.Timer, u: TP.Timer, fired: seq<Fired>, id: TimerId) {
    && (TP.Chains(t) == 0 ==> TP.Chains(u) == 0 && NoneFired(fired, id))
    && (forall h | TP.Carries(t, h) :: TP.Carries(u, h) && OnlyFired(fired, id, h))
  }

  ghost predicate AllFiredCarried(before: map<TimerId, TP.Timer>, now: map<TimerId, TP.Timer>,
                                  calls: seq<TimerCall>, fired: seq<Fired>) {
    && before.Keys <= now.Keys
    && (forall id | id in before && NotSet(calls, id) :: FiredCarried(before[id], now[id], fired, id))
  }

  lemma FiredCarriedStep(t: TP.Timer, u: TP.Timer, fired: seq<Fired>, id: TimerId, e: TP.Event, call: seq<Fired>)
    requires FiredCarried(t, u, fired, id) && TP.Enabled(u, e) && !e.Set?
    requires |call| <= 1 && (call != [] ==> e.ExpiredCompletes? && call[0] == Fired(id, u.expired[e.k]))
    ensures FiredCarried(t, TP.Step(u, e), fired + call, id)
  {
    TP.ChainsNeverGrow(u, e);
    forall h | TP.Carries(t, h) ensures TP.Carries(TP.Step(u, e), h) && OnlyFired(fired + call, id, h) {
      TP.StepCarries(u, e, h);
    }
  }

  lemma AllFiredCarriedStep(before: map<TimerId, TP.Timer>, now: map<TimerId, TP.Timer>, calls: seq<TimerCall>,
                            fired: seq<Fired>, id: TimerId, e: TP.Event)
    requires AllFiredCarried(before, now, calls, fired) && TimerCall(id, e) in calls
    ensures AllFiredCarried(before, AfterCall(now, id, e), calls, fired + FiredBy(now, id, e))
  {
    var later, more := AfterCall(now, id, e), FiredBy(now, id, e);
    forall other | other in before && NotSet(calls, other)
      ensures FiredCarried(before[other], later[other], fired + more, other)
    {
      if other == id && TP.Enabled(now[id], e) {
        FiredCarriedStep(before[id], now[id], fired, id, e, more);
      }
    }
  }

  class Services {
    var freeWorkerCount: int
    var workerHandles: seq<nat>        // thread handles
    var started: bool
    var periodicTimers: map<TimerId, TP.Timer>
    ghost var checked: nat
    ghost var adding: nat
    ghost var posting: nat
    ghost var queued: nat
    ghost var starting: nat
    ghost var inside: nat
    ghost var finishing: nat
    ghost var completions: nat

    ghost function Pool(): WP.Pool
      reads this
    {
      WP.Pool(freeWorkerCount, started, |workerHandles|, checked, adding, posting, queued, starting, inside,
              finishing, completions)
    }

    ghost predicate Valid()
      reads this
    {
      WP.Inv(Pool()) && OneWaitEach(periodicTimers)
    }

    constructor ()
      ensures Pool() == WP.Init() && periodicTimers == map[] && Valid()
    {
      freeWorkerCount, workerHandles, started, periodicTimers := 0, [], false, map[];
      checked, adding, posting, queued, starting, inside, finishing, completions := 0, 0, 0, 0, 0, 0, 0, 0;
    }

    /** Starts the service thread and posts the start notification, for which a thread is idle. */
    method Start()
      requires Valid() && !started
      modifies this`started, this`queued
      ensures Valid() && WP.Takes(old(Pool()), WP.Start, Pool())
      ensures WP.Enabled(Pool(), WP.PicksUp)
    {
      started := true;
      queued := queued + 1;
    }

    /** Undisturbed by other callers: at a counter of exactly 0 a worker is added, then the job is
    posted.  That leaves a thread for every waiting job only if there is room for all of them. */
    method RunWork(handle: nat)
      requires Valid() && started
      modifies this`freeWorkerCount, this`workerHandles, this`queued
      ensures Valid() && Pool() == WP.RunWork(old(Pool()))
      ensures WP.ThreadForEachJob(Pool()) <==>
              old(queued + starting + completions <= freeWorkerCount + adding + if freeWorkerCount == 0 then 1 else 0)
    {
      if freeWorkerCount == 0 {
        AddWorker(handle);
      }
      queued := queued + 1;
    }

    method AddWorker(handle: nat)
      modifies this`freeWorkerCount, this`workerHandles
      ensures freeWorkerCount == old(freeWorkerCount) + 1 && workerHandles == old(workerHandles) + [handle]
    {
      workerHandles := workerHandles + [handle];
      freeWorkerCount := freeWorkerCount + 1;
    }

    /** An idle thread picks up a posted job and enters it.  That takes the counter to its floor exactly
    when it was the last thread. */
    method JobBegins()
      requires Valid() && WP.Enabled(Pool(), WP.PicksUp)
      modifies this`freeWorkerCount, this`queued, this`inside
      ensures Valid() && WP.Takes(WP.Step(old(Pool()), WP.PicksUp), WP.Decrements, Pool())
      ensures freeWorkerCount >= -1 - adding
      ensures freeWorkerCount == -1 - adding <==> started && inside + finishing == WP.Threads(Pool())
    {
      queued := queued - 1;
      freeWorkerCount := freeWorkerCount - 1;
      inside := inside + 1;
    }

    /** A job returns, or throws a standard exception, which is reported; either way its thread counts
    again, so the counter is not at its floor. */
    method JobEnds(threw: bool) returns (reported: bool)
      requires Valid() && inside > 0
      modifies this`freeWorkerCount, this`inside
      ensures Valid() && WP.Takes(WP.Step(old(Pool()), WP.WorkEnds(threw)), WP.Increments, Pool())
      ensures freeWorkerCount + adding >= 0 && reported == threw
    {
      reported := threw;
      inside := inside - 1;
      freeWorkerCount := freeWorkerCount + 1;
    }

    /** A new timer calls nothing before it is set; an existing one is left as it is. */
    method InitialisePeriodicTimer(id: TimerId)
      requires Valid()
      modifies this`periodicTimers
      ensures Valid() && periodicTimers.Keys == old(periodicTimers).Keys + {id}
      ensures forall other | other in old(periodicTimers) :: periodicTimers[other] == old(periodicTimers)[other]
      ensures id !in old(periodicTimers) ==> TP.Silenced(periodicTimers[id]) && periodicTimers[id].calls == []
    {
      if id !in periodicTimers {
        periodicTimers := periodicTimers[id := TP.Timer([], [], [], [], [])];
        TP.SilencedExactly(periodicTimers[id]);
      }
    }

    /** The new handler can be the next one called; from now on only it runs, exactly when no completion
    or handler of another one is under way. */
    method SetPeriodicTimer(id: TimerId, handler: TP.Handler)
      requires Valid()
      modifies this`periodicTimers
      ensures Valid() && periodicTimers == AfterCall(old(periodicTimers), id, TP.Set(handler))
      ensures id in periodicTimers ==> TP.CanCallNext(periodicTimers[id], handler)
      ensures id in periodicTimers ==>
                var before := old(periodicTimers)[id];
                TP.OnlyCalls(periodicTimers[id], handler) <==>
                TP.All(before.expired, handler) && TP.All(before.running, handler)
    {
      if id in periodicTimers {
        var timer := periodicTimers[id];
        TP.SetExactly(timer, handler);
        TP.SetArms(timer, handler);
        // expires_from_now cancels the armed wait, async_wait arms the new one
        timer := timer.(aborted := timer.aborted + timer.armed, armed := []);
        timer := timer.(armed := timer.armed + [handler]);
        periodicTimers := periodicTimers[id := timer];
      }
    }

    /** The timer never calls a handler again before the next set, exactly when no expired completion
    was queued and no handler was running. */
    method CancelPeriodicTimer(id: TimerId)
      requires Valid()
      modifies this`periodicTimers
      ensures Valid() && periodicTimers == AfterCall(old(periodicTimers), id, TP.Cancel)
      ensures id in periodicTimers ==>
                var before := old(periodicTimers)[id];
                TP.Silenced(periodicTimers[id]) <==> before.expired == [] && before.running == []
    {
      if id in periodicTimers {
        var timer := periodicTimers[id];
        TP.CancelExactly(timer);
        periodicTimers := periodicTimers[id := timer.(aborted := timer.aborted + timer.armed, armed := [])];
      }
    }

    /** The service queues the completion of a wait that is over. */
    method WaitExpires(id: TimerId, k: nat)
      requires Valid() && id in periodicTimers && k < |periodicTimers[id].armed|
      modifies this`periodicTimers
      ensures Valid() && periodicTimers == AfterCall(old(periodicTimers), id, TP.Expires(k))
    {
      var timer := periodicTimers[id];
      timer := timer.(expired := timer.expired + [timer.armed[k]], armed := Without(timer.armed, k));
      periodicTimers := periodicTimers[id := timer];
    }

    /** A completion of timer `id` up to the call of its handler, which it returns: an aborted one does
    nothing. */
    method CompletionRuns(id: TimerId, aborted: bool, k: nat) returns (call: Option<TP.Handler>)
      requires Valid() && id in periodicTimers
      requires k < if aborted then |periodicTimers[id].aborted| else |periodicTimers[id].expired|
      modifies this`periodicTimers
      ensures Valid() && periodicTimers == AfterCall(old(periodicTimers), id, if aborted then TP.AbortedCompletes(k) else TP.ExpiredCompletes(k))
      ensures call == if aborted then None else Some(old(periodicTimers)[id].expired[k])
    {
      var timer := periodicTimers[id];
      if aborted {
        periodicTimers := periodicTimers[id := timer.(aborted := Without(timer.aborted, k))];
        return None;
      }
      var handler := timer.expired[k];
      timer := timer.(running := timer.running + [handler], calls := timer.calls + [handler],
                      expired := Without(timer.expired, k));
      periodicTimers := periodicTimers[id := timer];
      return Some(handler);
    }

    /** The handler of that completion is over; if it returned, the timer is set again, and its next
    call can come at once, if it threw, none comes unless something else is under way. */
    method HandlerOver(id: TimerId, k: nat, threw: bool)
      requires Valid() && id in periodicTimers && k < |periodicTimers[id].running|
      modifies this`periodicTimers
      ensures Valid()
      ensures periodicTimers == AfterCall(old(periodicTimers), id, if threw then TP.HandlerThrows(k) else TP.HandlerReturns(k))
      ensures id in periodicTimers && (TP.Silenced(periodicTimers[id]) <==> threw && TP.Chains(old(periodicTimers)[id]) == 1)
    {
      var timer := periodicTimers[id];
      var handler := timer.running[k];
      periodicTimers := periodicTimers[id := timer.(running := Without(timer.running, k))];
      if !threw {
        SetPeriodicTimer(id, handler);
      }
      TP.SilencedExactly(periodicTimers[id]);
    }

    /** Whatever `e` is, it happens to timer `id` if it can. */
    method Happens(id: TimerId, e: TP.Event) returns (fired: seq<Fired>)
      requires Valid()
      modifies this`periodicTimers
      ensures Valid() && periodicTimers == AfterCall(old(periodicTimers), id, e)
      ensures fired == FiredBy(old(periodicTimers), id, e)
    {
      fired := [];
      if id in periodicTimers && TP.Enabled(periodicTimers[id], e) {
        match e
        case Set(h) => SetPeriodicTimer(id, h);
        case Cancel => CancelPeriodicTimer(id);
        case Expires(k) => WaitExpires(id, k);
        case AbortedCompletes(k) => var none := CompletionRuns(id, true, k);
        case ExpiredCompletes(k) =>
          var call := CompletionRuns(id, false, k);
          fired := [Fired(id, call.value)];
        case HandlerReturns(k) => HandlerOver(id, k, false);
        case HandlerThrows(k) => HandlerOver(id, k, true);
      }
    }

    /** The application's calls and the service's completions, in any order and on any timers.  Every
    call takes effect, and `fired` tells exactly which handlers were called for each timer.  A timer that
    is silenced and not set fires nothing, one that carries a single handler fires only that one, whatever
    happens to the others. */
    method Serve(calls: seq<TimerCall>) returns (fired: seq<Fired>)
      requires Valid()
      modifies this`periodicTimers
      ensures Valid() && periodicTimers == AfterCalls(old(periodicTimers), calls)
      ensures Logged(old(periodicTimers), periodicTimers, fired)
      ensures forall id | id in old(periodicTimers) && TP.Silenced(old(periodicTimers)[id]) && NotSet(calls, id) ::
                NoneFired(fired, id)
      ensures forall id, h | id in old(periodicTimers) && TP.OnlyCalls(old(periodicTimers)[id], h) && NotSet(calls, id) ::
                OnlyFired(fired, id, h)
    {
      fired := [];
      ghost var before := periodicTimers;
      for i := 0 to |calls|
        invariant Valid() && periodicTimers == AfterCalls(before, calls[..i])
        invariant Logged(before, periodicTimers, fired)
        invariant AllFiredCarried(before, periodicTimers, calls, fired)
      {
        LoggedStep(before, periodicTimers, fired, calls[i].id, calls[i].e);
        AllFiredCarriedStep(before, periodicTimers, calls, fired, calls[i].id, calls[i].e);
        AfterOneMore(before, calls[..i], calls[i]);
        assert calls[..i + 1] == calls[..i] + [calls[i]];
        var more := Happens(calls[i].id, calls[i].e);
        fired := fired + more;
      }
      assert calls[..|calls|] == calls;
      forall id | id in before ensures TP.Silenced(before[id]) <==> TP.Chains(before[id]) == 0 {
        TP.SilencedExactly(before[id]);
      }
      forall id, h | id in before ensures TP.OnlyCalls(before[id], h) <==> TP.Carries(before[id], h) {
        TP.OnlyCallsExactly(before[id], h);
      }
    }
  }
}
