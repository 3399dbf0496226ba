/** When exactly `func` runs: at which calls, at which timers, and how late when timers are punctual. */
module DebounceTiming {
  import opened Debounce
  import opened Options

  // ------------------------------------------------------------------- at a call

  /** `func` has run once more, at `at`, for the latest of `count` calls. */
  predicate RunsFor(s: State, s': State, at: real, args: nat, count: nat) {
    s'.fired == s.fired + [Fired(at, Some(args), count)]
  }

  /** Without a longest wait a call runs `func` at once if there is a leading edge and no timer, and never else. */
  lemma CallRunsOnLeadingEdge(c: Config, s: State, at: real, args: nat)
    requires Valid(c) && Reachable(c, s) && c.maxWait.None? && Enabled(s, Call(at, args))
    ensures var s' := Step(c, s, Call(at, args));
      if c.leading && !Pending(s) then RunsFor(s, s', at, args, |s.received| + 1) else s'.fired == s.fired
  {
    AllReachable(c, s);
  }

  /** When `func` last ran; 0 before it did. */
  function LastRun(s: State): real { if s.fired == [] then 0.0 else s.fired[|s.fired| - 1].at }

  /** With a leading edge and a longest wait, a call runs `func` at once exactly when the last run is that long ago. */
  lemma CallRunsAfterLongestWait(c: Config, s: State, at: real, args: nat)
    requires Valid(c) && Reachable(c, s) && c.leading && c.maxWait.Some? && Enabled(s, Call(at, args))
    ensures var s' := Step(c, s, Call(at, args));
      if at >= LastRun(s) + c.maxWait.value then RunsFor(s, s', at, args, |s.received| + 1) else s'.fired == s.fired
  {
    ExtraReachable(c, s);
  }

  /** Without one, it does if and only if the timer of the longest wait is overdue, or that wait is nothing. */
  lemma CallRunsWhenOverdue(c: Config, s: State, at: real, args: nat)
    requires Valid(c) && Reachable(c, s) && !c.leading && c.maxWait.Some? && Enabled(s, Call(at, args))
    ensures var s' := Step(c, s, Call(at, args));
      if c.maxWait.value == 0.0 || (s.maxTimeout.Some? && at >= s.maxTimeout.value)
      then RunsFor(s, s', at, args, |s.received| + 1) else s'.fired == s.fired
  {
    AllReachable(c, s);
  }

  // ------------------------------------------------------------------ at a timer

  /**
   * Without a longest wait the timer runs `func` if and only if `wait` has passed since the last call, there
   * is a trailing edge, and that call was not served.
   */
  lemma TimerRunsAfterSilence(c: Config, s: State, at: real)
    requires Valid(c) && Reachable(c, s) && c.maxWait.None? && Enabled(s, Timeout(at))
    ensures s.received != []
    ensures var s', last := Step(c, s, Timeout(at)), s.received[|s.received| - 1];
      if at >= last.at + c.wait && c.trailing && Unserved(s) then RunsFor(s, s', at, last.args, |s.received|)
      else s'.fired == s.fired
    ensures at >= s.received[|s.received| - 1].at + c.wait <==> !Pending(Step(c, s, Timeout(at)))
  {
    ExtraReachable(c, s);
  }

  // --------------------------------------------------------------- in every run

  /** What else holds in every run. */
  ghost predicate Extra(c: Config, s: State) {
    && (!c.trailing ==> !s.trailingCall)
    && (c.leading && c.maxWait.Some? ==> s.lastCalled == LastRun(s))
    && (forall i :: 0 <= i < |s.received| ==> s.received[i].at <= s.stamp)
    && (!c.leading && s.maxTimeout.Some? && Unserved(s) ==> s.lastCalled >= s.received[s.served].at)
    && (c.maxWait.None? && s.timeout.Some? ==> s.received != [])
    && (c.maxWait == Some(0.0) ==> s.maxTimeout.None?)
  }

  lemma ExtraStep(c: Config, s: State, e: Event)
    requires Valid(c) && All(c, s) && Enabled(s, e) && Extra(c, s)
    ensures Extra(c, Step(c, s, e))
  {
    hide FiredInv, Spaced, Quiet, Waits;
    if e.Call? {
      ExtraCall(c, s, e.at, e.args);
    } else {
      hide OnCall;
    }
  }

  lemma ExtraCall(c: Config, s: State, at: real, args: nat)
    requires Valid(c) && Inv(c, s) && Enabled(s, Call(at, args)) && Extra(c, s)
    ensures Extra(c, OnCall(c, s, at, args))
  {
    hide FiredInv;
    var s' := OnCall(c, s, at, args);
    CallRecords(c, s, at, args);
    CallTimers(c, s, at, args);
    hide OnCall, TimersInv;
    forall i | 0 <= i < |s'.received| ensures s'.received[i].at <= s'.stamp {
      if i < |s.received| {
        assert s'.received[i] == s.received[i];
      }
    }
  }

  /** What a call does to the flag and to the start of the longest wait. */
  lemma CallTimers(c: Config, s: State, at: real, args: nat)
    requires Valid(c) && Ordered(s) && TimersInv(c, s) && Enabled(s, Call(at, args)) && Extra(c, s)
    ensures var s' := OnCall(c, s, at, args);
      && (!c.trailing ==> !s'.trailingCall)
      && (c.leading && c.maxWait.Some? ==> s'.lastCalled == LastRun(s'))
      && (!c.leading && s'.maxTimeout.Some? ==> s'.lastCalled == if s.maxTimeout.None? then at else s.lastCalled)
      && (!c.leading && s'.maxTimeout.Some? ==> s'.fired == s.fired && s'.served == s.served)
      && (c.maxWait == Some(0.0) ==> s'.maxTimeout.None?)
  {
  }

  lemma {:induction false} ExtraRun(c: Config, s: State, events: seq<Event>)
    requires Valid(c) && All(c, s) && Extra(c, s) && Run(c, s, events).Some?
    ensures All(c, Run(c, s, events).value) && Extra(c, Run(c, s, events).value)
    decreases |events|
  {
    hide All, Extra, Step, Enabled, Valid;
    if events != [] {
      ExtraStep(c, s, events[0]);
      AllStep(c, s, events[0]);
      ExtraRun(c, Step(c, s, events[0]), events[1..]);
    }
  }

  lemma AllStep(c: Config, s: State, e: Event)
    requires Valid(c) && All(c, s) && Enabled(s, e)
    ensures All(c, Step(c, s, e))
  {
    hide Enabled, All;
    assert [e][1..] == [] && Run(c, Step(c, s, e), []) == Some(Step(c, s, e));
    AllRun(c, s, [e]);
    hide Step;
  }

  lemma ExtraReachable(c: Config, s: State)
    requires Valid(c) && Reachable(c, s)
    ensures All(c, s) && Extra(c, s)
  {
    var events :| Run(c, INIT, events) == Some(s);
    hide Run;
    ExtraRun(c, INIT, events);
  }

  // ---------------------------------------------------------- runs between the calls

  /** The `i`th run came with the call it serves. */
  predicate AtArrival(s: State, i: int) {
    0 <= i < |s.fired| && 0 < s.fired[i].count <= |s.received| && s.fired[i].at == s.received[s.fired[i].count - 1].at
  }

  ghost predicate OnlyAtCalls(s: State) { forall i :: 0 <= i < |s.fired| ==> AtArrival(s, i) }

  lemma OnlyAtCallsStep(c: Config, s: State, e: Event)
    requires Valid(c) && All(c, s) && Extra(c, s) && Enabled(s, e) && OnlyAtCalls(s)
    requires !c.trailing && (c.maxWait.Some? ==> c.maxWait.value <= c.wait)
    ensures OnlyAtCalls(Step(c, s, e))
  {
    hide FiredInv, Spaced, Quiet, Waits;
    var s' := Step(c, s, e);
    forall i | 0 <= i < |s'.fired| ensures AtArrival(s', i) {
      if i < |s.fired| {
        assert AtArrival(s, i);
      }
    }
  }

  lemma {:induction false} OnlyAtCallsRun(c: Config, s: State, events: seq<Event>)
    requires Valid(c) && All(c, s) && Extra(c, s) && Run(c, s, events).Some? && OnlyAtCalls(s)
    requires !c.trailing && (c.maxWait.Some? ==> c.maxWait.value <= c.wait)
    ensures OnlyAtCalls(Run(c, s, events).value)
    decreases |events|
  {
    hide All, Extra, Step, Enabled, OnlyAtCalls, Valid;
    if events != [] {
      ExtraStep(c, s, events[0]);
      AllStep(c, s, events[0]);
      OnlyAtCallsStep(c, s, events[0]);
      OnlyAtCallsRun(c, Step(c, s, events[0]), events[1..]);
    }
  }

  /**
   * Without a trailing edge `func` runs with a call or not at all, in every run, exactly when there is no
   * longest wait above `wait`: its timer runs `func` whatever the edges.
   */
  lemma NoRunsBetweenCalls(c: Config)
    requires Valid(c) && !c.trailing
    ensures (forall s, i :: Reachable(c, s) && 0 <= i < |s.fired| ==> AtArrival(s, i))
       <==> !(c.maxWait.Some? && c.maxWait.value > c.wait)
  {
    if c.maxWait.Some? && c.maxWait.value > c.wait {
      var s := RunBetweenCalls(c);
      assert Reachable(c, s) && !AtArrival(s, 0);
    } else {
      forall s, i | Reachable(c, s) && 0 <= i < |s.fired| ensures AtArrival(s, i) {
        var events :| Run(c, INIT, events) == Some(s);
        hide Run;
        OnlyAtCallsRun(c, INIT, events);
      }
    }
  }

  /** One call, and the timer of the longest wait before the other one. */
  lemma RunBetweenCalls(c: Config) returns (s: State)
    requires Valid(c) && !c.trailing && c.maxWait.Some? && c.maxWait.value > c.wait
    ensures Reachable(c, s) && |s.fired| == 1 && !AtArrival(s, 0)
  {
    var m := c.maxWait.value;
    var s1 := Step(c, INIT, Call(0.0, 1));
    s := Step(c, s1, MaxTimeout(m));
    assert Run(c, s, []) == Some(s);
    Prepend(c, s1, MaxTimeout(m), [], s);
    Prepend(c, INIT, Call(0.0, 1), [MaxTimeout(m)], s);
  }

  // ---------------------------------------------------------------- no leading edge

  /** Where the calls start that the `i`th run is the first to serve. */
  function FirstServed(s: State, i: int): int { if 0 < i <= |s.fired| then s.fired[i - 1].count else 0 }

  /** The `i`th run comes `wait` after the first call it serves, or later. */
  predicate Waited(c: Config, s: State, i: int) {
    0 <= i < |s.fired| && 0 <= FirstServed(s, i) < |s.received|
    && s.fired[i].at >= s.received[FirstServed(s, i)].at + c.wait
  }

  ghost predicate AllWaited(c: Config, s: State) { forall i :: 0 <= i < |s.fired| ==> Waited(c, s, i) }

  /** The longest wait, if any, is at least `wait`. */
  predicate Ordinary(c: Config) { c.maxWait.Some? ==> c.maxWait.value >= c.wait }

  lemma WaitedStep(c: Config, s: State, e: Event)
    requires Valid(c) && All(c, s) && Extra(c, s) && Enabled(s, e) && AllWaited(c, s) && !c.leading && Ordinary(c)
    ensures AllWaited(c, Step(c, s, e))
  {
    var s' := Step(c, s, e);
    NextRunWaited(c, s, e);
    hide All, Extra, Step, Enabled, Valid;
    forall i | 0 <= i < |s'.fired| ensures Waited(c, s', i) {
      if i < |s.fired| {
        assert Waited(c, s, i);
      }
    }
  }

  lemma NextRunWaited(c: Config, s: State, e: Event)
    requires Valid(c) && All(c, s) && Extra(c, s) && Enabled(s, e) && !c.leading && Ordinary(c)
    ensures var s' := Step(c, s, e);
      && s.received <= s'.received
      && (s'.fired == s.fired || (|s'.fired| == |s.fired| + 1 && s.fired <= s'.fired && Waited(c, s', |s.fired|)))
  {
    assert s.served == FirstServed(s, |s.fired|);
    hide FiredInv, Spaced, Quiet, Waits;
  }

  lemma {:induction false} WaitedRun(c: Config, s: State, events: seq<Event>)
    requires Valid(c) && All(c, s) && Extra(c, s) && Run(c, s, events).Some? && AllWaited(c, s)
    requires !c.leading && Ordinary(c)
    ensures AllWaited(c, Run(c, s, events).value)
    decreases |events|
  {
    hide All, Extra, Step, Enabled, AllWaited, Valid;
    if events != [] {
      ExtraStep(c, s, events[0]);
      AllStep(c, s, events[0]);
      WaitedStep(c, s, events[0]);
      WaitedRun(c, Step(c, s, events[0]), events[1..]);
    }
  }

  /** Without a leading edge, in every run `func` runs `wait` or more after the first call it then serves. */
  lemma NoLeadingEdge(c: Config, s: State, i: nat)
    requires Valid(c) && Reachable(c, s) && !c.leading && Ordinary(c) && i < |s.fired|
    ensures FirstServed(s, i) < |s.received| && s.fired[i].at >= s.received[FirstServed(s, i)].at + c.wait
  {
    var events :| Run(c, INIT, events) == Some(s);
    hide Run;
    WaitedRun(c, INIT, events);
    assert Waited(c, s, i);
  }

  // ---------------------------------------------------------------- punctual timers

  /** A timer event comes when it is due, and nothing comes after a timer that is due before it. */
  predicate Due(s: State, e: Event) {
    && (s.timeout.Some? ==> e.at <= s.timeout.value)
    && (s.maxTimeout.Some? ==> e.at <= s.maxTimeout.value)
  }

  predicate Punctual(c: Config, s: State, events: seq<Event>)
    decreases |events|
  {
    events != [] ==> Enabled(s, events[0]) && Due(s, events[0]) && Punctual(c, Step(c, s, events[0]), events[1..])
  }

  ghost predicate ReachableOnTime(c: Config, s: State) {
    exists events :: Punctual(c, INIT, events) && Run(c, INIT, events) == Some(s)
  }

  /** No timer is overdue. */
  predicate OnTime(s: State) {
    && (s.timeout.Some? ==> s.clock <= s.timeout.value)
    && (s.maxTimeout.Some? ==> s.clock <= s.maxTimeout.value)
  }

  /** `func` ran once for call `i`, exactly `wait` after it. */
  ghost predicate RanAfterSilence(c: Config, s: State, i: int) {
    0 <= i < |s.received| && exists k :: 0 <= k < |s.fired| && s.fired[k] == AfterWait(c, s, i)
  }

  function AfterWait(c: Config, s: State, i: int): Fired
    requires 0 <= i < |s.received|
  {
    Fired(s.received[i].at + c.wait, Some(s.received[i].args), i + 1)
  }

  /** The calls before which `func` must have run: `wait` was over before the next call. */
  predicate Silent(c: Config, s: State, i: int) {
    0 <= i && i + 1 < |s.received| && s.received[i + 1].at > s.received[i].at + c.wait
  }

  ghost predicate Exact(c: Config, s: State) {
    && OnTime(s) && s.maxTimeout.None?
    && (s.timeout.Some? ==> s.trailingCall && s.received != [] && s.timeout.value <= s.stamp + c.wait)
    && (s.timeout.None? && s.received != [] ==> RanAfterSilence(c, s, |s.received| - 1))
    && (forall i :: Silent(c, s, i) ==> RanAfterSilence(c, s, i))
    && (forall k :: 0 <= k < |s.fired| ==>
          0 < s.fired[k].count <= |s.received| && s.fired[k] == AfterWait(c, s, s.fired[k].count - 1))
  }

  lemma ExactStep(c: Config, s: State, e: Event)
    requires Valid(c) && All(c, s) && Enabled(s, e) && Due(s, e) && IsPlain(c) && Exact(c, s)
    ensures Exact(c, Step(c, s, e))
  {
    match e
    case Call(at, args) => ExactCall(c, s, at, args);
    case Timeout(at) => ExactTimer(c, s, at);
    case MaxTimeout(at) =>
  }

  lemma StillRan(c: Config, s: State, s': State)
    requires s.received <= s'.received && s.fired <= s'.fired
    ensures forall i :: RanAfterSilence(c, s, i) ==> RanAfterSilence(c, s', i)
  {
    forall i | RanAfterSilence(c, s, i) ensures RanAfterSilence(c, s', i) {
      var k :| 0 <= k < |s.fired| && s.fired[k] == AfterWait(c, s, i);
      assert s'.fired[k] == AfterWait(c, s', i);
    }
  }

  lemma ExactCall(c: Config, s: State, at: real, args: nat)
    requires Valid(c) && All(c, s) && Enabled(s, Call(at, args)) && Due(s, Call(at, args)) && IsPlain(c) && Exact(c, s)
    ensures Exact(c, Step(c, s, Call(at, args)))
  {
    hide FiredInv, Spaced, Quiet, Waits, RanAfterSilence;
    var s' := Step(c, s, Call(at, args));
    StillRan(c, s, s');
    forall i | Silent(c, s', i) ensures RanAfterSilence(c, s', i) {
      if i + 1 < |s.received| {
        assert Silent(c, s, i);
      }
    }
  }

  lemma ExactTimer(c: Config, s: State, at: real)
    requires Valid(c) && All(c, s) && Enabled(s, Timeout(at)) && Due(s, Timeout(at)) && IsPlain(c) && Exact(c, s)
    ensures Exact(c, Step(c, s, Timeout(at)))
  {
    hide FiredInv, Spaced, Quiet, Waits;
    var s' := Step(c, s, Timeout(at));
    StillRan(c, s, s');
    if s'.fired != s.fired {
      assert s'.fired[|s.fired|] == AfterWait(c, s', |s'.received| - 1);
    }
    forall i | Silent(c, s', i) ensures RanAfterSilence(c, s', i) {
      assert Silent(c, s, i);
    }
  }

  lemma {:induction false} ExactRun(c: Config, s: State, events: seq<Event>)
    requires Valid(c) && All(c, s) && Punctual(c, s, events) && IsPlain(c) && Exact(c, s)
    ensures Run(c, s, events).Some? && Exact(c, Run(c, s, events).value)
    decreases |events|
  {
    hide All, Step, Enabled, Due, Exact, Valid;
    if events != [] {
      AllStep(c, s, events[0]);
      ExactStep(c, s, events[0]);
      ExactRun(c, Step(c, s, events[0]), events[1..]);
    }
  }

  /**
   * With punctual timers a plain debounce runs `func` exactly `wait` after each call that no other call
   * follows within `wait`, with its arguments, and at no other time.
   */
  lemma PlainDebounceIsExact(c: Config, s: State)
    requires Valid(c) && IsPlain(c) && ReachableOnTime(c, s)
    ensures forall i :: Silent(c, s, i) ==> RanAfterSilence(c, s, i)
    ensures s.received != [] && (!Pending(s) || s.clock > s.received[|s.received| - 1].at + c.wait) ==>
      RanAfterSilence(c, s, |s.received| - 1)
    ensures forall k :: 0 <= k < |s.fired| ==>
      0 < s.fired[k].count <= |s.received| && s.fired[k] == AfterWait(c, s, s.fired[k].count - 1)
  {
    var events :| Punctual(c, INIT, events) && Run(c, INIT, events) == Some(s);
    hide Punctual, Run;
    ExactRun(c, INIT, events);
    assert Reachable(c, s);
    AllReachable(c, s);
  }

  // -------------------------------------------------------- punctual leading edges

  /** `func` ran for call `i` as it came. */
  ghost predicate RanAtOnce(s: State, i: int) {
    0 <= i < |s.received| && exists k :: 0 <= k < |s.fired| && s.fired[k] == AsItCame(s, i)
  }

  function AsItCame(s: State, i: int): Fired
    requires 0 <= i < |s.received|
  {
    Fired(s.received[i].at, Some(s.received[i].args), i + 1)
  }

  /** Call `i` is the first, or comes more than `gap` after the one before it. */
  predicate FirstAfter(s: State, i: int, gap: real) {
    0 <= i < |s.received| && (i > 0 ==> s.received[i].at > s.received[i - 1].at + gap)
  }

  /** The same, with a gap of just `gap` allowed. */
  predicate FirstSince(s: State, i: int, gap: real) {
    0 <= i < |s.received| && (i > 0 ==> s.received[i].at >= s.received[i - 1].at + gap)
  }

  predicate IsLeading(c: Config) { c.leading && c.maxWait.None? }

  ghost predicate Leads(c: Config, s: State) {
    && OnTime(s) && s.maxTimeout.None?
    && (s.timeout.Some? ==> s.received != [] && s.timeout.value <= s.stamp + c.wait)
    && (s.timeout.None? && s.received != [] ==> s.clock >= s.stamp + c.wait)
    && (forall i :: FirstAfter(s, i, c.wait) ==> RanAtOnce(s, i))
    && (forall i :: RanAtOnce(s, i) ==> FirstSince(s, i, c.wait))
  }

  lemma LeadsStep(c: Config, s: State, e: Event)
    requires Valid(c) && All(c, s) && Extra(c, s) && Enabled(s, e) && Due(s, e) && IsLeading(c) && Leads(c, s)
    ensures Leads(c, Step(c, s, e))
  {
    var s' := Step(c, s, e);
    match e
    case Call(at, args) => LeadsCall(c, s, at, args);
    case Timeout(at) => LeadsTimer(c, s, at);
    case MaxTimeout(at) =>
  }

  /** Runs for calls received before are those there were. */
  lemma RanBefore(s: State, s': State)
    requires s.received <= s'.received && s.fired <= s'.fired
    ensures forall i :: RanAtOnce(s, i) ==> RanAtOnce(s', i)
  {
    forall i | RanAtOnce(s, i) ensures RanAtOnce(s', i) {
      var k :| 0 <= k < |s.fired| && s.fired[k] == AsItCame(s, i);
      assert s'.fired[k] == AsItCame(s', i);
    }
  }

  lemma LeadsCall(c: Config, s: State, at: real, args: nat)
    requires Valid(c) && All(c, s) && Enabled(s, Call(at, args)) && Due(s, Call(at, args))
    requires IsLeading(c) && Leads(c, s)
    ensures Leads(c, Step(c, s, Call(at, args)))
  {
    var s', n := Step(c, s, Call(at, args)), |s.received|;
    RanBefore(s, s');
    if s'.fired != s.fired {
      assert s'.fired[|s.fired|] == AsItCame(s', n);
      assert RanAtOnce(s', n);
    }
    forall k | 0 <= k < |s.fired| ensures s.fired[k].count <= n && s'.fired[k] == s.fired[k] {
      assert ServesLatest(c, s, k);
    }
    hide FiredInv, Spaced, Quiet, Waits, TimersInv;
    forall i | FirstAfter(s', i, c.wait) ensures RanAtOnce(s', i) {
      if i < n {
        assert FirstAfter(s, i, c.wait);
      }
    }
    forall i | RanAtOnce(s', i) ensures FirstSince(s', i, c.wait) {
      if i < n {
        var k :| 0 <= k < |s'.fired| && s'.fired[k] == AsItCame(s', i);
        assert s.fired[k] == AsItCame(s, i);
        assert RanAtOnce(s, i);
        assert FirstSince(s, i, c.wait);
      }
    }
  }

  lemma LeadsTimer(c: Config, s: State, at: real)
    requires Valid(c) && All(c, s) && Extra(c, s) && Enabled(s, Timeout(at)) && Due(s, Timeout(at))
    requires IsLeading(c) && Leads(c, s)
    ensures Leads(c, Step(c, s, Timeout(at)))
  {
    hide FiredInv, Spaced, Quiet, Waits;
    var s' := Step(c, s, Timeout(at));
    RanBefore(s, s');
    forall i | FirstAfter(s', i, c.wait) ensures RanAtOnce(s', i) {
      assert FirstAfter(s, i, c.wait);
    }
    forall i | RanAtOnce(s', i) ensures FirstSince(s', i, c.wait) {
      var k :| 0 <= k < |s'.fired| && s'.fired[k] == AsItCame(s', i);
      if k < |s.fired| {
        assert s.fired[k] == AsItCame(s, i);
        assert RanAtOnce(s, i);
        assert FirstSince(s, i, c.wait);
      } else {
        assert i == |s.received| - 1;
      }
    }
  }

  lemma {:induction false} LeadsRun(c: Config, s: State, events: seq<Event>)
    requires Valid(c) && All(c, s) && Extra(c, s) && Punctual(c, s, events) && IsLeading(c) && Leads(c, s)
    ensures Run(c, s, events).Some? && Leads(c, Run(c, s, events).value)
    decreases |events|
  {
    hide All, Extra, Step, Enabled, Due, Leads, Valid;
    if events != [] {
      AllStep(c, s, events[0]);
      ExtraStep(c, s, events[0]);
      LeadsStep(c, s, events[0]);
      LeadsRun(c, Step(c, s, events[0]), events[1..]);
    }
  }

  /**
   * With punctual timers and no longest wait, a leading edge runs `func` for the first call and for each that
   * comes more than `wait` after the one before it, at once, and for no call that comes sooner than that.
   */
  lemma LeadingEdgeIsExact(c: Config, s: State, i: nat)
    requires Valid(c) && IsLeading(c) && ReachableOnTime(c, s) && i < |s.received|
    ensures FirstAfter(s, i, c.wait) ==> RanAtOnce(s, i)
    ensures RanAtOnce(s, i) ==> FirstSince(s, i, c.wait)
  {
    var events :| Punctual(c, INIT, events) && Run(c, INIT, events) == Some(s);
    hide Punctual, Run;
    LeadsRun(c, INIT, events);
  }

  // ---------------------------------------------------------------- punctual longest wait

  /** A trailing edge that loses no call and serves none twice, with a longest wait. */
  predicate IsBounded(c: Config) { c.trailing && !Loses(c) && c.maxWait.Some? && Ordinary(c) }

  /** The `i`th run comes within the longest wait of the first call it serves. */
  predicate InTime(c: Config, s: State, i: int)
    requires c.maxWait.Some?
  {
    && 0 <= i < |s.fired| && 0 <= FirstServed(s, i) < |s.received|
    && s.fired[i].at <= s.received[FirstServed(s, i)].at + c.maxWait.value
  }

  ghost predicate AllInTime(c: Config, s: State)
    requires c.maxWait.Some?
  {
    OnTime(s) && forall i :: 0 <= i < |s.fired| ==> InTime(c, s, i)
  }

  lemma NextRunInTime(c: Config, s: State, e: Event)
    requires Valid(c) && All(c, s) && Extra(c, s) && Enabled(s, e) && Due(s, e) && IsBounded(c) && OnTime(s)
    ensures var s' := Step(c, s, e);
      && OnTime(s') && s.received <= s'.received
      && (s'.fired == s.fired || (|s'.fired| == |s.fired| + 1 && s.fired <= s'.fired && InTime(c, s', |s.fired|)))
  {
    assert s.served == FirstServed(s, |s.fired|);
    hide FiredInv, Spaced, Quiet;
  }

  lemma InTimeStep(c: Config, s: State, e: Event)
    requires Valid(c) && All(c, s) && Extra(c, s) && Enabled(s, e) && Due(s, e) && IsBounded(c) && AllInTime(c, s)
    ensures AllInTime(c, Step(c, s, e))
  {
    var s' := Step(c, s, e);
    NextRunInTime(c, s, e);
    hide All, Extra, Step, Enabled, Valid;
    forall i | 0 <= i < |s'.fired| ensures InTime(c, s', i) {
      if i < |s.fired| {
        assert InTime(c, s, i);
      }
    }
  }

  lemma {:induction false} InTimeRun(c: Config, s: State, events: seq<Event>)
    requires Valid(c) && All(c, s) && Extra(c, s) && Punctual(c, s, events) && IsBounded(c) && AllInTime(c, s)
    ensures Run(c, s, events).Some? && AllInTime(c, Run(c, s, events).value)
    decreases |events|
  {
    hide All, Extra, Step, Enabled, Due, AllInTime, Valid;
    if events != [] {
      AllStep(c, s, events[0]);
      ExtraStep(c, s, events[0]);
      InTimeStep(c, s, events[0]);
      InTimeRun(c, Step(c, s, events[0]), events[1..]);
    }
  }

  /**
   * With punctual timers no call waits longer than the longest wait: every run comes within it of the first
   * call it serves, and a call not served yet is not older than that.
   */
  lemma LongestWaitIsKept(c: Config, s: State)
    requires Valid(c) && IsBounded(c) && ReachableOnTime(c, s)
    ensures forall i :: 0 <= i < |s.fired| ==>
      && 0 <= FirstServed(s, i) < |s.received|
      && s.fired[i].at <= s.received[FirstServed(s, i)].at + c.maxWait.value
    ensures Unserved(s) ==> s.clock <= s.received[s.served].at + c.maxWait.value
  {
    var events :| Punctual(c, INIT, events) && Run(c, INIT, events) == Some(s);
    hide Punctual, Run;
    InTimeRun(c, INIT, events);
    forall i | 0 <= i < |s.fired|
      ensures 0 <= FirstServed(s, i) < |s.received|
      ensures s.fired[i].at <= s.received[FirstServed(s, i)].at + c.maxWait.value
    {
      assert InTime(c, s, i);
    }
    assert Reachable(c, s);
    MaxWaitBoundsNow(c, s);
  }

  lemma MaxWaitBoundsNow(c: Config, s: State)
    requires Valid(c) && IsBounded(c) && Reachable(c, s) && OnTime(s)
    ensures Unserved(s) ==> s.clock <= s.received[s.served].at + c.maxWait.value
  {
    hide Reachable;
    if Unserved(s) {
      MaxWaitBounds(c, s);
    }
  }
}
