/** Finite runs of a step machine, and the one induction every machine here uses.

A machine is a partial function `step`: `step.requires(s, e)` says that event `e` can happen
in state `s`, and `step(s, e)` is the state after it.  An event carries every choice the
environment makes (byte counts, allocation sizes, which completion is dispatched). */
module Runs {

  /** The events `es` can happen one after the other, starting in `s`. */
  ghost predicate Feasible<S(!new), E(!new)>(step: (S, E) --> S, s: S, es: seq<E>)
    decreases |es|
  {
    es == [] || (step.requires(s, es[0]) && Feasible(step, step(s, es[0]), es[1..]))
  }

  /** The state after the events `es`. */
  ghost function Run<S(!new), E(!new)>(step: (S, E) --> S, s: S, es: seq<E>): S
    requires Feasible(step, s, es)
    decreases |es|
  {
    if es == [] then s else Run(step, step(s, es[0]), es[1..])
  }

  /** What every step with an allowed event keeps, every run of allowed events keeps. */
  lemma {:induction false} PreservedUnder<S(!new), E(!new)>(
      step: (S, E) --> S, allowed: E -> bool, inv: S -> bool, s: S, es: seq<E>)
    requires Feasible(step, s, es) && inv(s)
    requires forall e | e in es :: allowed(e)
    requires forall t, e :: inv(t) && allowed(e) && step.requires(t, e) ==> inv(step(t, e))
    ensures inv(Run(step, s, es))
    decreases |es|
  {
    if es != [] {
      assert es[0] in es;
      PreservedUnder(step, allowed, inv, step(s, es[0]), es[1..]);
    }
  }

  /** What every step keeps, every run keeps. */
  lemma Preserved<S(!new), E(!new)>(step: (S, E) --> S, inv: S -> bool, s: S, es: seq<E>)
    requires Feasible(step, s, es) && inv(s)
    requires forall t, e :: inv(t) && step.requires(t, e) ==> inv(step(t, e))
    ensures inv(Run(step, s, es))
  {
    PreservedUnder(step, (e: E) => true, inv, s, es);
  }

  /** A step in front of a run. */
  lemma Cons<S(!new), E(!new)>(step: (S, E) --> S, s: S, e: E, es: seq<E>)
    requires step.requires(s, e) && Feasible(step, step(s, e), es)
    ensures Feasible(step, s, [e] + es) && Run(step, s, [e] + es) == Run(step, step(s, e), es)
  {
    assert ([e] + es)[1..] == es;
  }

  /** A run given by its states. */
  lemma {:induction false} Traced<S(!new), E(!new)>(step: (S, E) --> S, states: seq<S>, es: seq<E>)
    requires |states| == |es| + 1
    requires forall i | 0 <= i < |es| :: step.requires(states[i], es[i]) && step(states[i], es[i]) == states[i + 1]
    ensures Feasible(step, states[0], es) && Run(step, states[0], es) == states[|es|]
    decreases |es|
  {
    if es != [] {
      Traced(step, states[1..], es[1..]);
    }
  }

  /** A run may be cut anywhere. */
  lemma {:induction false} Concat<S(!new), E(!new)>(step: (S, E) --> S, s: S, es: seq<E>, fs: seq<E>)
    ensures Feasible(step, s, es + fs) <==> Feasible(step, s, es) && Feasible(step, Run(step, s, es), fs)
    ensures Feasible(step, s, es + fs) ==> Run(step, s, es + fs) == Run(step, Run(step, s, es), fs)
    decreases |es|
  {
    if es == [] {
      assert es + fs == fs;
    } else {
      assert (es + fs)[0] == es[0] && (es + fs)[1..] == es[1..] + fs;
      if step.requires(s, es[0]) {
        Concat(step, step(s, es[0]), es[1..], fs);
      }
    }
  }
}
