/** The `debounce` helper of main.js (the class method and its identical
    global copy). The closure variable `timeout` is modelled as the optional
    pending timer, carrying the arguments of the call that scheduled it; the
    timer going off is a discrete `Fire` event. */
module Debounce {
  import opened Wrappers

  /** What can happen to a debounced wrapper: it is called, or its pending
      timer goes off. */
  datatype Event<A> = Call(args: A) | Fire

  /** The wrapper's state: the `immediate` flag it was built with and the
      pending timer, if any, with the arguments its `later` closure captured. */
  datatype Debouncer<A> = Debouncer(immediate: bool, pending: Option<A>)

  /** One event: the wrapper's next state, and the arguments `func` ran with
      during the event, if it ran. A fire with no timer pending does not
      happen in a browser; it is a no-op here. */
  function Step<A>(d: Debouncer<A>, e: Event<A>): (Debouncer<A>, Option<A>)
  {
    match e
    case Call(args) =>
      var callNow := d.immediate && d.pending.None?;
      (d.(pending := Some(args)), if callNow then Some(args) else None)
    case Fire =>
      match d.pending
      case None => (d, None)
      case Some(args) => (d.(pending := None), if d.immediate then None else Some(args))
  }

  function OptionToSeq<A>(o: Option<A>): seq<A> {
    match o
    case None => []
    case Some(x) => [x]
  }

  /** A run of events: the final state and every invocation of `func`, in
      order, each given by the arguments it ran with. */
  function Run<A>(d: Debouncer<A>, es: seq<Event<A>>): (Debouncer<A>, seq<A>)
    decreases |es|
  {
    if es == [] then (d, [])
    else
      var (d1, ran) := Step(d, es[0]);
      var (d2, rest) := Run(d1, es[1..]);
      (d2, OptionToSeq(ran) + rest)
  }

  /** The events of a burst of calls, one per argument list. */
  function Calls<A>(xs: seq<A>): (es: seq<Event<A>>)
    ensures |es| == |xs|
    ensures forall i :: 0 <= i < |xs| ==> es[i] == Call(xs[i])
  {
    if xs == [] then [] else [Call(xs[0])] + Calls(xs[1..])
  }

  /** The number of timer fires among `es`. */
  function CountFires<A>(es: seq<Event<A>>): nat {
    if es == [] then 0 else (if es[0].Fire? then 1 else 0) + CountFires(es[1..])
  }

  /** The number of calls among `es`. */
  function CountCalls<A>(es: seq<Event<A>>): nat {
    if es == [] then 0 else (if es[0].Call? then 1 else 0) + CountCalls(es[1..])
  }

  /** Every call leaves exactly one timer pending, carrying that call's
      arguments: the previous timer, if any, is replaced. Without
      `immediate` a call never runs `func`; with it, a call runs `func` with
      its own arguments exactly when no timer was pending. */
  lemma CallReplacesTimer<A>(d: Debouncer<A>, args: A)
    ensures Step(d, Call(args)).0 == Debouncer(d.immediate, Some(args))
    ensures !d.immediate ==> Step(d, Call(args)).1 == None
    ensures d.immediate ==> (Step(d, Call(args)).1 == Some(args) <==> d.pending == None)
  {
  }

  /** A fire clears the pending timer; without `immediate` it runs `func`
      once with the captured arguments, with `immediate` it never runs it. */
  lemma FireRunsCapturedArgs<A>(d: Debouncer<A>)
    ensures Step(d, Fire).0.pending == None
    ensures !d.immediate ==> Step(d, Fire).1 == d.pending
    ensures d.immediate ==> Step(d, Fire).1 == None
  {
  }

  /** The first step of a run. */
  lemma RunFirst<A>(d: Debouncer<A>, es: seq<Event<A>>)
    requires es != []
    ensures var (d1, ran) := Step(d, es[0]);
      Run(d, es) == (Run(d1, es[1..]).0, OptionToSeq(ran) + Run(d1, es[1..]).1)
  {
  }

  /** Running two stretches of events one after the other. */
  lemma {:induction false} RunAppend<A>(d: Debouncer<A>, xs: seq<Event<A>>, ys: seq<Event<A>>)
    ensures Run(d, xs + ys) == (Run(Run(d, xs).0, ys).0, Run(d, xs).1 + Run(Run(d, xs).0, ys).1)
    decreases |xs|
  {
    if xs == [] {
      assert xs + ys == ys;
      assert Run(d, xs) == (d, []);
      assert [] + Run(d, ys).1 == Run(d, ys).1;
    } else {
      var zs := xs + ys;
      assert zs[0] == xs[0];
      assert zs[1..] == xs[1..] + ys;
      var (d1, ran) := Step(d, xs[0]);
      RunAppend(d1, xs[1..], ys);
      RunFirst(d, xs);
      RunFirst(d, zs);
      assert OptionToSeq(ran) + (Run(d1, xs[1..]).1 + Run(Run(d1, xs[1..]).0, ys).1)
          == (OptionToSeq(ran) + Run(d1, xs[1..]).1) + Run(Run(d1, xs[1..]).0, ys).1;
    }
  }

  /** A burst of calls leaves one timer pending with the last call's
      arguments. `func` runs during the burst only with `immediate` set and
      nothing pending beforehand, and then once, with the first call's
      arguments. */
  lemma {:induction false} CallBurst<A>(d: Debouncer<A>, xs: seq<A>)
    requires |xs| > 0
    ensures Run(d, Calls(xs)).0 == Debouncer(d.immediate, Some(xs[|xs| - 1]))
    ensures Run(d, Calls(xs)).1 == if d.immediate && d.pending == None then [xs[0]] else []
    decreases |xs|
  {
    var es := Calls(xs);
    assert es[0] == Call(xs[0]);
    assert es[1..] == Calls(xs[1..]);
    var (d1, ran) := Step(d, Call(xs[0]));
    assert d1 == Debouncer(d.immediate, Some(xs[0]));
    assert Run(d, es) == (Run(d1, es[1..]).0, OptionToSeq(ran) + Run(d1, es[1..]).1);
    if |xs| == 1 {
      assert es[1..] == [];
    } else {
      CallBurst(d1, xs[1..]);
      assert xs[1..][|xs[1..]| - 1] == xs[|xs| - 1];
      assert Run(d1, es[1..]).1 == [];
    }
  }

  /** A burst of calls followed by the timer going off runs `func` exactly
      once: with the last call's arguments when `immediate` is off (trailing
      edge); with the first call's arguments when `immediate` is on and the
      burst started with nothing pending (leading edge). Either way no timer
      is left pending. */
  lemma BurstThenFire<A>(d: Debouncer<A>, xs: seq<A>)
    requires |xs| > 0
    ensures Run(d, Calls(xs) + [Fire]).0 == Debouncer(d.immediate, None)
    ensures !d.immediate ==> Run(d, Calls(xs) + [Fire]).1 == [xs[|xs| - 1]]
    ensures d.immediate && d.pending == None ==> Run(d, Calls(xs) + [Fire]).1 == [xs[0]]
  {
    CallBurst(d, xs);
    RunAppend(d, Calls(xs), [Fire]);
  }

  /** Without `immediate`, `func` runs at most once per fire, whatever the
      interleaving of calls and fires. */
  lemma {:induction false} TrailingRunsAtMostOncePerFire<A>(d: Debouncer<A>, es: seq<Event<A>>)
    requires !d.immediate
    ensures |Run(d, es).1| <= CountFires(es)
    decreases |es|
  {
    if es != [] {
      TrailingRunsAtMostOncePerFire(Step(d, es[0]).0, es[1..]);
    }
  }

  /** With `immediate`, `func` runs at most once per call and never on a
      fire, whatever the interleaving. */
  lemma {:induction false} LeadingRunsAtMostOncePerCall<A>(d: Debouncer<A>, es: seq<Event<A>>)
    requires d.immediate
    ensures |Run(d, es).1| <= CountCalls(es)
    decreases |es|
  {
    if es != [] {
      LeadingRunsAtMostOncePerCall(Step(d, es[0]).0, es[1..]);
    }
  }

  /** The wrapper function returned by `debounce(func, wait, immediate)`:
      `timeout` is its closure variable. Each method returns the arguments
      `func` ran with during the event, if it ran. */
  class Debounced<A> {
    const immediate: bool
    var timeout: Option<A>

    function State(): Debouncer<A>
      reads this
    {
      Debouncer(immediate, timeout)
    }

    constructor (immediate: bool)
      ensures State() == Debouncer(immediate, None)
    {
      this.immediate := immediate;
      timeout := None;
    }

    /** `executedFunction(...args)`. */
    method Invoke(args: A) returns (ran: Option<A>)
      modifies this
      ensures (State(), ran) == Step(old(State()), Call(args))
    {
      var callNow := immediate && timeout.None?;
      timeout := Some(args);
      if callNow {
        ran := Some(args);
      } else {
        ran := None;
      }
    }

    /** The pending `later` timer going off. */
    method FireTimer() returns (ran: Option<A>)
      modifies this
      ensures (State(), ran) == Step(old(State()), Fire)
    {
      ran := None;
      match timeout
      case None =>
      case Some(args) =>
        timeout := None;
        if !immediate {
          ran := Some(args);
        }
    }
  }
}
