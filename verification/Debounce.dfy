/**
 * lodash's `debounce`, and `throttle` on top of it, as a machine of three events: a call of the debounced
 * function and the two timers. A timer never fires early; it may fire late.
 */
module Debounce {
  import opened Options

  /** The options after `debounce` has normalised them. */
  datatype Config = Config(wait: real, maxWait: Option<real>, leading: bool, trailing: bool)

  /** The longest wait is at least `wait`, unless it was no number: then it is 0. */
  ghost predicate Valid(c: Config) {
    c.wait >= 0.0 && (c.maxWait.Some? ==> c.maxWait.value >= c.wait || c.maxWait.value == 0.0)
  }

  /** What a number a caller passes may be; `undefined` converts to NaN. */
  datatype Number = Finite(value: real) | NaN

  /** `nativeMax(low, n) || 0`: NaN gives 0, whatever the lower bound. */
  function AtLeast(low: real, n: Number): real {
    if n.NaN? then 0.0 else if low < n.value then n.value else low
  }

  function Normalised(wait: Number, maxWait: Option<Number>, leading: bool, trailing: bool): (c: Config)
    ensures Valid(c)
    ensures c.maxWait.Some? && c.maxWait.value < c.wait <==> maxWait == Some(NaN) && wait.Finite? && wait.value > 0.0
  {
    var w := AtLeast(0.0, wait);
    Config(w, if maxWait.None? then None else Some(AtLeast(w, maxWait.value)), leading, trailing)
  }

  /** `throttle(func, wait)` is a debounce whose longest wait is `wait` too. */
  function Throttled(wait: Number, leading: bool, trailing: bool): (c: Config)
    ensures Valid(c) && c.maxWait == Some(c.wait)
  {
    Normalised(wait, Some(wait), leading, trailing)
  }

  datatype Received = Received(at: real, args: nat)

  /** A call of `func`, with how many calls had been received by then. */
  datatype Fired = Fired(at: real, args: Option<nat>, count: nat)

  /**
   * The captured variables, timers as the time they are due. The rest is history that nothing reads: the
   * clock, the calls received, the calls of `func`, and how many received calls had come when it last ran.
   */
  datatype State = State(
    args: Option<nat>,
    stamp: real,
    lastCalled: real,
    timeout: Option<real>,
    maxTimeout: Option<real>,
    trailingCall: bool,
    clock: real,
    received: seq<Received>,
    fired: seq<Fired>,
    served: nat)

  const INIT := State(None, 0.0, 0.0, None, None, false, 0.0, [], [], 0)

  datatype Event = Call(at: real, args: nat) | Timeout(at: real) | MaxTimeout(at: real)

  predicate Enabled(s: State, e: Event) {
    && e.at >= s.clock
    && match e
       case Call(_, _) => true
       case Timeout(at) => s.timeout.Some? && at >= s.timeout.value
       case MaxTimeout(at) => s.maxTimeout.Some? && at >= s.maxTimeout.value
  }

  /** `func.apply(thisArg, args)`. */
  function Invoke(s: State, at: real): State {
    s.(fired := s.fired + [Fired(at, s.args, |s.received|)], served := |s.received|)
  }

  function Forget(s: State): State {
    if s.timeout.None? && s.maxTimeout.None? then s.(args := None) else s
  }

  function Step(c: Config, s: State, e: Event): State
    requires Enabled(s, e)
  {
    match e
    case Call(at, args) => OnCall(c, s, at, args)
    case Timeout(at) => OnTimeout(c, s.(clock := at), at)
    case MaxTimeout(at) => OnMaxTimeout(c, s.(clock := at), at)
  }

  function OnCall(c: Config, s: State, at: real, args: nat): State {
    var s1 := s.(clock := at, args := Some(args), stamp := at, received := s.received + [Received(at, args)],
                 trailingCall := c.trailing && (s.timeout.Some? || !c.leading));
    if c.maxWait.None? then
      var s2 := if s.timeout.None? then s1.(timeout := Some(at + c.wait)) else s1;
      if c.leading && s.timeout.None? then Forget(Invoke(s2, at)) else s2
    else
      var s2 := MaxEdge(c, s1, at);
      if MaxEdgeCalls(c, s1, at) then
        Forget(if s.timeout.Some? then s2.(timeout := None)
               else if c.wait != c.maxWait.value then s2.(timeout := Some(at + c.wait)) else s2)
      else if s.timeout.None? && c.wait != c.maxWait.value then s2.(timeout := Some(at + c.wait)) else s2
  }

  /** What is left of the longest wait, which starts afresh when it was not running and there is no leading edge. */
  function Remaining(c: Config, s: State, at: real): real
    requires c.maxWait.Some?
  {
    c.maxWait.value - (at - if s.maxTimeout.None? && !c.leading then at else s.lastCalled)
  }

  predicate MaxEdgeCalls(c: Config, s: State, at: real)
    requires c.maxWait.Some?
  {
    Remaining(c, s, at) <= 0.0
  }

  /** A call with a longest wait: `func` runs when it is over, or its timer is started. */
  function MaxEdge(c: Config, s: State, at: real): State
    requires c.maxWait.Some?
  {
    var s1 := if s.maxTimeout.None? && !c.leading then s.(lastCalled := at) else s;
    if MaxEdgeCalls(c, s, at) then Invoke(s1.(maxTimeout := None, lastCalled := at), at)
    else if s.maxTimeout.None? then s1.(maxTimeout := Some(at + Remaining(c, s, at)))
    else s1
  }

  function OnTimeout(c: Config, s: State, at: real): State {
    var remaining := c.wait - (at - s.stamp);
    if remaining <= 0.0 then
      var s1 := s.(maxTimeout := None, timeout := None, trailingCall := false);
      if s.trailingCall then Forget(Invoke(s1.(lastCalled := at), at)) else s1
    else s.(timeout := Some(at + remaining))
  }

  function OnMaxTimeout(c: Config, s: State, at: real): State {
    var s1 := s.(maxTimeout := None, timeout := None, trailingCall := false);
    if c.trailing || c.maxWait != Some(c.wait) then Forget(Invoke(s1.(lastCalled := at), at)) else s1
  }

  function Run(c: Config, s: State, events: seq<Event>): Option<State>
    decreases |events|
  {
    if events == [] then Some(s)
    else if Enabled(s, events[0]) then Run(c, Step(c, s, events[0]), events[1..]) else None
  }

  ghost predicate Reachable(c: Config, s: State) { exists events :: Run(c, INIT, events) == Some(s) }

  // ----------------------------------------------------------------- in every run

  predicate Pending(s: State) { s.timeout.Some? || s.maxTimeout.Some? }

  /** A call was received that `func` has not run after. */
  predicate Unserved(s: State) { s.served < |s.received| }

  /** Everything recorded happened by now. */
  ghost predicate Ordered(s: State) {
    && 0.0 <= s.lastCalled <= s.clock && s.served <= |s.received|
    && (s.received != [] ==> s.stamp == s.received[|s.received| - 1].at)
    && (forall i :: 0 <= i < |s.received| ==> s.received[i].at <= s.clock)
    && (forall i :: 0 <= i < |s.fired| ==> s.fired[i].at <= s.clock)
  }

  /** What the timers go with. */
  ghost predicate TimersInv(c: Config, s: State) {
    && (Pending(s) ==> s.received != [] && s.args == Some(s.received[|s.received| - 1].args))
    && (c.maxWait.None? ==> s.maxTimeout.None?)
    && (c.maxWait == Some(c.wait) ==> s.timeout.None?)
    && (s.maxTimeout.Some? ==> c.maxWait.Some? && s.maxTimeout.value == s.lastCalled + c.maxWait.value && Unserved(s))
    && (s.maxTimeout.Some? && c.maxWait != Some(c.wait) ==> s.timeout.Some?)
    && (s.timeout.Some? && s.trailingCall ==> Unserved(s) || Doubles(c))
  }

  /** Every call is served as it comes, and its trailing edge serves it again. */
  predicate Doubles(c: Config) { c.trailing && !c.leading && c.maxWait.Some? && c.maxWait.value < c.wait }

  /** The `i`th call of `func` got the arguments of the latest call, and served one no earlier call had. */
  predicate ServesLatest(c: Config, s: State, i: int) {
    && 0 <= i < |s.fired| && 0 < s.fired[i].count <= s.served <= |s.received|
    && s.fired[i].args == Some(s.received[s.fired[i].count - 1].args)
    && (i > 0 ==> s.fired[i - 1].count <= s.fired[i].count)
    && (i > 0 && !Doubles(c) ==> s.fired[i - 1].count < s.fired[i].count)
  }

  ghost predicate FiredInv(c: Config, s: State) {
    && (forall i :: 0 <= i < |s.fired| ==> ServesLatest(c, s, i))
    && s.served == if s.fired == [] then 0 else s.fired[|s.fired| - 1].count
  }

  ghost predicate Inv(c: Config, s: State) { Ordered(s) && TimersInv(c, s) && FiredInv(c, s) }

  lemma InvokeKeeps(c: Config, s: State, at: real)
    requires FiredInv(c, s) && (Unserved(s) || (Doubles(c) && s.served == |s.received| > 0))
        && s.args == Some(s.received[|s.received| - 1].args)
    ensures FiredInv(c, Invoke(s, at))
  {
    var s' := Invoke(s, at);
    forall i | 0 <= i < |s'.fired| ensures ServesLatest(c, s', i) {
      if i < |s.fired| {
        assert ServesLatest(c, s, i);
      }
    }
  }

  /** Nothing but the history matters to it. */
  lemma FiredSame(c: Config, s: State, s': State)
    requires FiredInv(c, s) && s'.fired == s.fired && s'.served == s.served && s.received <= s'.received
    ensures FiredInv(c, s')
  {
    forall i | 0 <= i < |s'.fired| ensures ServesLatest(c, s', i) {
      assert ServesLatest(c, s, i);
    }
  }

  /** What a call adds to the history. */
  lemma CallRecords(c: Config, s: State, at: real, args: nat)
    ensures var s' := OnCall(c, s, at, args);
      && s'.clock == at && s'.stamp == at && s'.received == s.received + [Received(at, args)]
      && (s'.lastCalled == s.lastCalled || s'.lastCalled == at)
      && ((s'.fired == s.fired && s'.served == s.served)
          || (s'.fired == s.fired + [Fired(at, Some(args), |s'.received|)] && s'.served == |s'.received|))
  {
  }

  lemma CallKeepsFired(c: Config, s: State, at: real, args: nat)
    requires Valid(c) && Inv(c, s) && Enabled(s, Call(at, args))
    ensures FiredInv(c, OnCall(c, s, at, args))
  {
    var s' := OnCall(c, s, at, args);
    CallRecords(c, s, at, args);
    hide OnCall;
    if s'.fired == s.fired {
      FiredSame(c, s, s');
    } else {
      var s1 := s.(args := Some(args), received := s.received + [Received(at, args)]);
      FiredSame(c, s, s1);
      InvokeKeeps(c, s1, at);
      FiredSame(c, Invoke(s1, at), s');
    }
  }

  lemma CallKeepsOrder(c: Config, s: State, at: real, args: nat)
    requires Valid(c) && Inv(c, s) && Enabled(s, Call(at, args))
    ensures Ordered(OnCall(c, s, at, args))
  {
    CallRecords(c, s, at, args);
    hide OnCall, FiredInv, TimersInv;
  }

  lemma CallKeepsTimers(c: Config, s: State, at: real, args: nat)
    requires Valid(c) && Inv(c, s) && Enabled(s, Call(at, args))
    ensures TimersInv(c, OnCall(c, s, at, args))
  {
    hide FiredInv;
  }

  lemma InvCall(c: Config, s: State, at: real, args: nat)
    requires Valid(c) && Inv(c, s) && Enabled(s, Call(at, args))
    ensures Inv(c, Step(c, s, Call(at, args)))
  {
    hide OnCall, FiredInv, TimersInv, Ordered;
    CallKeepsFired(c, s, at, args);
    CallKeepsOrder(c, s, at, args);
    CallKeepsTimers(c, s, at, args);
  }

  lemma InvTimeout(c: Config, s: State, at: real)
    requires Valid(c) && Inv(c, s) && Enabled(s, Timeout(at))
    ensures Inv(c, Step(c, s, Timeout(at)))
  {
    var s' := Step(c, s, Timeout(at));
    if s'.fired == s.fired {
      FiredSame(c, s, s');
    } else {
      InvokeKeeps(c, s, at);
      FiredSame(c, Invoke(s, at), s');
    }
    hide FiredInv;
  }

  lemma InvMaxTimeout(c: Config, s: State, at: real)
    requires Valid(c) && Inv(c, s) && Enabled(s, MaxTimeout(at))
    ensures Inv(c, Step(c, s, MaxTimeout(at)))
  {
    var s' := Step(c, s, MaxTimeout(at));
    if s'.fired == s.fired {
      FiredSame(c, s, s');
    } else {
      InvokeKeeps(c, s, at);
      FiredSame(c, Invoke(s, at), s');
    }
    hide FiredInv;
  }

  lemma InvStep(c: Config, s: State, e: Event)
    requires Valid(c) && Inv(c, s) && Enabled(s, e)
    ensures Inv(c, Step(c, s, e))
  {
    hide Inv, Step, Enabled;
    match e
    case Call(at, args) => InvCall(c, s, at, args);
    case Timeout(at) => InvTimeout(c, s, at);
    case MaxTimeout(at) => InvMaxTimeout(c, s, at);
  }

  // ------------------------------------------------------------------------ spacing

  predicate IsThrottle(c: Config) { c.maxWait == Some(c.wait) }

  predicate Apart(c: Config, s: State, i: int) {
    0 <= i < |s.fired| && s.fired[i].at <= s.lastCalled && (i > 0 ==> s.fired[i].at - s.fired[i - 1].at >= c.wait)
  }

  ghost predicate Spaced(c: Config, s: State) { forall i :: 0 <= i < |s.fired| ==> Apart(c, s, i) }

  lemma SpacedStep(c: Config, s: State, e: Event)
    requires Valid(c) && Inv(c, s) && Enabled(s, e) && IsThrottle(c) && Spaced(c, s)
    ensures Spaced(c, Step(c, s, e))
  {
    hide FiredInv;
    var s' := Step(c, s, e);
    forall i | 0 <= i < |s'.fired| ensures Apart(c, s', i) {
      if i < |s.fired| {
        assert Apart(c, s, i);
      } else if i > 0 {
        assert Apart(c, s, i - 1);
      }
    }
  }

  // ------------------------------------------------------------------------ silence

  predicate IsPlain(c: Config) { c.maxWait.None? && !c.leading && c.trailing }

  /** The `i`th call of `func` came `wait` after the call it serves, and no other call came in between. */
  predicate AfterSilence(c: Config, s: State, i: int) {
    && 0 <= i < |s.fired| && 0 < s.fired[i].count <= |s.received|
    && s.fired[i].at >= s.received[s.fired[i].count - 1].at + c.wait
    && (s.fired[i].count < |s.received| ==> s.fired[i].at <= s.received[s.fired[i].count].at)
  }

  ghost predicate Quiet(c: Config, s: State) { forall i :: 0 <= i < |s.fired| ==> AfterSilence(c, s, i) }

  lemma QuietStep(c: Config, s: State, e: Event)
    requires Valid(c) && Inv(c, s) && Enabled(s, e) && IsPlain(c) && Quiet(c, s)
    ensures Quiet(c, Step(c, s, e))
  {
    hide FiredInv;
    var s' := Step(c, s, e);
    forall i | 0 <= i < |s'.fired| ensures AfterSilence(c, s', i) {
      if i < |s.fired| {
        assert AfterSilence(c, s, i);
      }
    }
  }

  // -------------------------------------------------------------------- no call lost

  /** A call that `func` has not run after, with no timer left that could run it. */
  predicate Lost(s: State) { Unserved(s) && !Pending(s) }

  /** With a leading edge and a longest wait above `wait`, a call soon after a long one is forgotten. */
  predicate Loses(c: Config) { c.leading && c.maxWait.Some? && c.maxWait.value > c.wait }

  /** A call still to be served has the timer that will serve it, due within the longest wait. */
  ghost predicate Waits(c: Config, s: State) {
    && (s.timeout.Some? && Unserved(s) ==> s.trailingCall)
    && (Unserved(s) && c.maxWait.None? ==> s.timeout.Some?)
    && (Unserved(s) && c.maxWait.Some? ==>
          && s.maxTimeout.Some? && s.served < |s.received|
          && s.maxTimeout.value <= s.received[s.served].at + c.maxWait.value)
  }

  lemma WaitsStep(c: Config, s: State, e: Event)
    requires Valid(c) && Inv(c, s) && Enabled(s, e) && c.trailing && !Loses(c) && Waits(c, s)
    ensures Waits(c, Step(c, s, e))
  {
    hide FiredInv;
  }

  // ------------------------------------------------------------------------ results

  ghost predicate All(c: Config, s: State) {
    && Inv(c, s) && (IsThrottle(c) ==> Spaced(c, s)) && (IsPlain(c) ==> Quiet(c, s))
    && (c.trailing && !Loses(c) ==> Waits(c, s))
  }

  lemma {:induction false} AllRun(c: Config, s: State, events: seq<Event>)
    requires Valid(c) && All(c, s) && Run(c, s, events).Some?
    ensures All(c, Run(c, s, events).value)
    decreases |events|
  {
    hide Inv, Step, Enabled, Spaced, Quiet, Waits, Valid;
    if events != [] {
      var e := events[0];
      InvStep(c, s, e);
      if IsThrottle(c) {
        SpacedStep(c, s, e);
      }
      if IsPlain(c) {
        QuietStep(c, s, e);
      }
      if c.trailing && !Loses(c) {
        WaitsStep(c, s, e);
      }
      AllRun(c, Step(c, s, e), events[1..]);
    }
  }

  lemma AllReachable(c: Config, s: State)
    requires Valid(c) && Reachable(c, s)
    ensures All(c, s)
  {
    var events :| Run(c, INIT, events) == Some(s);
    AllRun(c, INIT, events);
  }

  /** Whatever the options, `func` gets the latest arguments, in the order of the calls. */
  lemma EachRunServesLatest(c: Config, s: State, i: nat)
    requires Valid(c) && Reachable(c, s) && i < |s.fired|
    ensures 0 < s.fired[i].count <= |s.received|
    ensures s.fired[i].args == Some(s.received[s.fired[i].count - 1].args)
    ensures i > 0 ==> s.fired[i - 1].count <= s.fired[i].count
    ensures i > 0 && !Doubles(c) ==> s.fired[i - 1].count < s.fired[i].count
  {
    AllReachable(c, s);
    assert ServesLatest(c, s, i);
  }

  predicate RunsTwice(s: State, i: int) { 0 < i < |s.fired| && s.fired[i - 1].count == s.fired[i].count }

  /** `func` never runs twice for the same call, in any run, exactly when the options do not double. */
  lemma RunsOncePerCall(c: Config)
    requires Valid(c)
    ensures (forall s, i :: Reachable(c, s) ==> !RunsTwice(s, i)) <==> !Doubles(c)
  {
    if Doubles(c) {
      var s := DoublingRun(c);
      assert Reachable(c, s) && RunsTwice(s, 1);
    } else {
      forall s, i | Reachable(c, s) ensures !RunsTwice(s, i) {
        if 0 < i < |s.fired| {
          EachRunServesLatest(c, s, i);
        }
      }
    }
  }

  /** One call, served as it comes and again by its timer. */
  lemma DoublingRun(c: Config) returns (s: State)
    requires Valid(c) && Doubles(c)
    ensures Reachable(c, s) && RunsTwice(s, 1)
  {
    var s1 := Step(c, INIT, Call(0.0, 1));
    s := Step(c, s1, Timeout(c.wait));
    assert Run(c, s, []) == Some(s);
    Prepend(c, s1, Timeout(c.wait), [], s);
    Prepend(c, INIT, Call(0.0, 1), [Timeout(c.wait)], s);
  }

  /** A throttled function runs `func` at least `wait` apart, with any options. */
  lemma ThrottleSpacing(wait: Number, leading: bool, trailing: bool, s: State, i: nat)
    requires Reachable(Throttled(wait, leading, trailing), s) && i + 1 < |s.fired|
    ensures s.fired[i + 1].at - s.fired[i].at >= if wait.NaN? then 0.0 else wait.value
  {
    var c := Throttled(wait, leading, trailing);
    AllReachable(c, s);
    assert Apart(c, s, i + 1);
  }

  /** A plain debounce runs `func` once `wait` has passed with no call, for the call before that silence. */
  lemma DebounceWaitsForSilence(wait: Number, s: State, i: nat)
    requires Reachable(Normalised(wait, None, false, true), s) && i < |s.fired|
    ensures 0 < s.fired[i].count <= |s.received|
    ensures s.fired[i].at >= s.received[s.fired[i].count - 1].at + if wait.NaN? then 0.0 else wait.value
    ensures s.fired[i].count < |s.received| ==> s.received[s.fired[i].count].at >= s.fired[i].at
  {
    var c := Normalised(wait, None, false, true);
    AllReachable(c, s);
    assert AfterSilence(c, s, i);
  }

  /** While a call waits for its trailing edge, the longest wait bounds it: a timer is due by then. */
  lemma MaxWaitBounds(c: Config, s: State)
    requires Valid(c) && Reachable(c, s) && c.trailing && !Loses(c) && c.maxWait.Some? && Unserved(s)
    ensures s.served < |s.received| && s.maxTimeout.Some?
    ensures s.maxTimeout.value <= s.received[s.served].at + c.maxWait.value
  {
    AllReachable(c, s);
  }

  /**
   * With a trailing edge, every call is served or has a timer that will serve it, in every run, exactly
   * when the options do not combine a leading edge with a longest wait above `wait`.
   */
  lemma NoCallIsLost(c: Config)
    requires Valid(c) && c.trailing
    ensures (forall s :: Reachable(c, s) ==> !Lost(s)) <==> !Loses(c)
  {
    if Loses(c) {
      var s := LosingRun(c);
      assert Reachable(c, s) && Lost(s);
    } else {
      forall s | Reachable(c, s) ensures !Lost(s) {
        AllReachable(c, s);
      }
    }
  }

  /** Two calls served by their arrival, a third too late for the leading edge, and the timer that drops it. */
  lemma LosingRun(c: Config) returns (s: State)
    requires Valid(c) && c.trailing && Loses(c)
    ensures Reachable(c, s) && Lost(s)
  {
    var m := c.maxWait.value;
    var s1 := Step(c, INIT, Call(m, 1));
    var s2 := Step(c, s1, Call(m + m, 2));
    var s3 := Step(c, s2, Call(m + m, 3));
    s := Step(c, s3, Timeout(m + m + c.wait));
    var e1, e2, e3, e4 := Call(m, 1), Call(m + m, 2), Call(m + m, 3), Timeout(m + m + c.wait);
    assert Run(c, s, []) == Some(s);
    Prepend(c, s3, e4, [], s);
    Prepend(c, s2, e3, [e4], s);
    Prepend(c, s1, e2, [e3] + [e4], s);
    Prepend(c, INIT, e1, [e2] + ([e3] + [e4]), s);
  }

  lemma Prepend(c: Config, s: State, e: Event, rest: seq<Event>, s': State)
    requires Enabled(s, e) && Run(c, Step(c, s, e), rest) == Some(s')
    ensures Run(c, s, [e] + rest) == Some(s')
  {
    hide Step, Enabled;
    assert ([e] + rest)[1..] == rest;
  }

  // ------------------------------------------------------------------ the function

  /** The closure `debounce` returns, and the two it hands to `setTimeout`. */
  class Debounced {
    const config: Config
    var args: Option<nat>
    var stamp: real
    var lastCalled: real
    var timeoutId: Option<real>
    var maxTimeoutId: Option<real>
    var trailingCall: bool
    ghost var clock: real
    ghost var received: seq<Received>
    ghost var fired: seq<Fired>
    ghost var served: nat

    ghost function Now(): State
      reads this
    {
      State(args, stamp, lastCalled, timeoutId, maxTimeoutId, trailingCall, clock, received, fired, served)
    }

    constructor (wait: Number, maxWait: Option<Number>, leading: bool, trailing: bool)
      ensures config == Normalised(wait, maxWait, leading, trailing) && Now() == INIT
    {
      config := Normalised(wait, maxWait, leading, trailing);
      args, stamp, lastCalled, timeoutId, maxTimeoutId, trailingCall := None, 0.0, 0.0, None, None, false;
      clock, received, fired, served := 0.0, [], [], 0;
    }

    /** Records a call of `func` with the current arguments. */
    ghost method Apply(at: real)
      modifies this`fired, this`served
      ensures Now() == Invoke(old(Now()), at)
    {
      fired := fired + [Fired(at, args, |received|)];
      served := |received|;
    }

    method CheckMaxWait(now: real) returns (isCalled: bool)
      requires config.maxWait.Some? && stamp == now
      modifies `lastCalled, `maxTimeoutId, `fired, `served
      ensures Now() == MaxEdge(config, old(Now()), now) && isCalled == MaxEdgeCalls(config, old(Now()), now)
    {
      if maxTimeoutId.None? && !config.leading {
        lastCalled := stamp;
      }
      var remaining := config.maxWait.value - (stamp - lastCalled);
      isCalled := remaining <= 0.0;
      if isCalled {
        maxTimeoutId := None;
        lastCalled := stamp;
        Apply(now);
      } else if maxTimeoutId.None? {
        maxTimeoutId := Some(now + remaining);
      }
    }

    method Call(now: real, arguments: nat)
      requires Enabled(Now(), Event.Call(now, arguments))
      modifies this
      ensures Now() == Step(config, old(Now()), Event.Call(now, arguments))
    {
      hide MaxEdge, MaxEdgeCalls;
      clock, received := now, received + [Received(now, arguments)];
      args := Some(arguments);
      stamp := now;
      trailingCall := config.trailing && (timeoutId.Some? || !config.leading);
      var leadingCall, isCalled := false, false;
      if config.maxWait.None? {
        leadingCall := config.leading && timeoutId.None?;
      } else {
        isCalled := CheckMaxWait(now);
      }
      if isCalled && timeoutId.Some? {
        timeoutId := None;
      } else if timeoutId.None? && config.maxWait != Some(config.wait) {
        timeoutId := Some(now + config.wait);
      }
      if leadingCall {
        isCalled := true;
        Apply(now);
      }
      if isCalled && timeoutId.None? && maxTimeoutId.None? {
        args := None;
      }
    }

    method Delayed(now: real)
      requires Enabled(Now(), Timeout(now))
      modifies this
      ensures Now() == Step(config, old(Now()), Timeout(now))
    {
      clock := now;
      var remaining := config.wait - (now - stamp);
      if remaining <= 0.0 {
        var isCalled := trailingCall;
        maxTimeoutId, timeoutId, trailingCall := None, None, false;
        if isCalled {
          lastCalled := now;
          Apply(now);
          args := None;
        }
      } else {
        timeoutId := Some(now + remaining);
      }
    }

    method MaxDelayed(now: real)
      requires Enabled(Now(), MaxTimeout(now))
      modifies this
      ensures Now() == Step(config, old(Now()), MaxTimeout(now))
    {
      clock := now;
      maxTimeoutId, timeoutId, trailingCall := None, None, false;
      if config.trailing || config.maxWait != Some(config.wait) {
        lastCalled := now;
        Apply(now);
        args := None;
      }
    }
  }
}
