/**
 * What `require` does, told as traces of the bodies it runs: each action with its reply and the world after
 * it, and inside it the trace of the body it loaded.
 */
module CommonJsTraces {
  import opened CommonJs
  import opened Options

  /** An action of a body, what it was told, the world after it, and the run it loaded a file with. */
  datatype Event = Event(action: Action, reply: Reply, after: World, loaded: Option<Trace>)

  /** The run of the body of `file`; `failed` is the run an uncaught `require` died in, when that ended it. */
  datatype Trace = Trace(file: string, start: World, events: seq<Event>, end: World, threw: bool, failed: Option<Trace>)

  function Replies(events: seq<Event>): (replies: seq<Reply>)
    ensures |replies| == |events|
  {
    if events == [] then [] else Replies(events[..|events| - 1]) + [events[|events| - 1].reply]
  }

  /** The world before event `k`. */
  function Before(start: World, events: seq<Event>, k: nat): World
    requires k <= |events|
  {
    if k == 0 then start else events[k - 1].after
  }

  /** Event `k` is what the script does after the replies before it. */
  ghost predicate IsNext(lib: Library, script: Script, start: World, events: seq<Event>, k: nat)
    requires k < |events|
    decreases events, 0
  {
    events[k].action == script.next(Replies(events[..k])) && IsStep(lib, Before(start, events, k), events[k])
  }

  /** Each action is what the script does next, and the last ends the body. */
  ghost predicate IsRun(lib: Library, t: Trace)
    decreases t, 0
  {
    lib.script(t.file).Some? &&
    var script := lib.script(t.file).value;
    && |t.events| <= script.bound
    && (forall k :: 0 <= k < |t.events| ==> IsNext(lib, script, t.start, t.events, k))
    && (if |t.events| == script.bound then Stops(t, false)
        else match script.next(Replies(t.events))
          case End => Stops(t, false)
          case Throw => Stops(t, true)
          case Require(id, from, caught) =>
            && !caught && t.threw
            && IsAnswer(lib, id, from, Before(t.start, t.events, |t.events|), Threw(t.end), t.failed)
          case SetExports(_, _) => false)
  }

  predicate Stops(t: Trace, threw: bool) {
    t.threw == threw && t.failed.None? && t.end == Before(t.start, t.events, |t.events|)
  }

  /** An assignment changes the exports of that module and its cache entry; a `require` is answered. */
  ghost predicate IsStep(lib: Library, w: World, e: Event)
    decreases e, 0
  {
    match e.action
    case End => false
    case Throw => false
    case SetExports(file, v) =>
      && e.reply == Noted && e.loaded.None?
      && e.after == if file in w.exports then w.(exports := w.exports[file := v], cache := w.cache[file := v]) else w
    case Require(id, from, caught) =>
      match e.reply
      case Noted => false
      case Got(v) => IsAnswer(lib, id, from, w, Returned(v, e.after), e.loaded)
      case Raised => caught && IsAnswer(lib, id, from, w, Threw(e.after), e.loaded)
  }

  /**
   * What `require` answers: it throws without the file, returns what the cache has, parses a `.json` file,
   * and otherwise makes the module, runs its body, and returns what the module exports after that.
   */
  ghost predicate IsAnswer(lib: Library, id: string, parent: string, w: World, r: Outcome, loaded: Option<Trace>)
    decreases loaded, 1
  {
    var file := Resolve(lib, id, parent);
    if file.None? then loaded.None? && r == Threw(w)
    else if file.value in w.cache then loaded.None? && r == Returned(w.cache[file.value], w)
    else if IsJson(file.value) then
      loaded.None? && r == if lib.json(file.value) then Returned(Object(w.next), w.(next := w.next + 1)) else Threw(w)
    else
      IsLoad(lib, file.value, parent, w, r, loaded)
  }

  /** What a load answers. */
  ghost predicate IsLoad(lib: Library, file: string, parent: string, w: World, r: Outcome, loaded: Option<Trace>)
    decreases loaded, 0
  {
    match loaded
    case None => lib.script(file).None? && r == Threw(Made(w, file, parent))
    case Some(t) =>
      && t.file == file && IsRun(lib, t)
      && t.start == Made(w, file, parent).(runs := w.runs + [file])
      && if t.threw then r == Threw(t.end)
         else
           && file in t.end.exports
           && r == Returned(t.end.exports[file], t.end.(loaded := t.end.loaded + {file}))
  }

  /** A new module: a new object for its exports, cached under its name, and a last child of its parent. */
  function Made(w: World, file: string, parent: string): World {
    World(w.cache[file := Object(w.next)], w.exports[file := Object(w.next)],
          map f | f in w.children.Keys + {file} ::
            if f == file then [] else if f == parent then w.children[f] + [file] else w.children[f],
          w.loaded, w.runs, w.next + 1)
  }

  lemma MadeIsConstructed(lib: Library, w: World, file: string, parent: string)
    requires Valid(lib, w) && file !in w.cache
    ensures Made(w, file, parent) == Construct(w, file, parent)
  {
    assert Made(w, file, parent).children == Construct(w, file, parent).children;
  }

  // ------------------------------------------------------------- traces and require

  /** Every `require` has a trace. */
  lemma {:induction false} RequireHasTrace(lib: Library, id: string, parent: string, w: World)
      returns (loaded: Option<Trace>)
    requires Valid(lib, w) && TruthyExports(lib)
    ensures IsAnswer(lib, id, parent, w, EvalRequire(lib, id, parent, w), loaded)
    decreases Unloaded(lib, w), 2, 0
  {
    var file := Resolve(lib, id, parent);
    loaded := None;
    if file.Some? && file.value !in w.cache && !IsJson(file.value) {
      loaded := LoadHasTrace(lib, file.value, parent, w);
    }
    hide EvalLoad, IsRun;
    CachedIsTruthy(lib, w);
  }

  lemma {:induction false} LoadHasTrace(lib: Library, file: string, parent: string, w: World)
      returns (loaded: Option<Trace>)
    requires Valid(lib, w) && TruthyExports(lib) && file in lib.files && file !in w.cache && !IsJson(file)
    ensures IsLoad(lib, file, parent, w, EvalLoad(lib, file, parent, w), loaded)
    decreases Unloaded(lib, w), 1, 0
  {
    MadeIsConstructed(lib, w, file, parent);
    ConstructKeeps(lib, w, file, parent);
    hide EvalBody, Unloaded, Valid, TruthyExports, IsRun, Grows, Construct, Made;
    var start := Start(Construct(w, file, parent), file);
    loaded := None;
    if lib.script(file).Some? {
      var t := RunHasTrace(lib, file, start, [], start);
      loaded := Some(t);
      assert Replies([]) == [];
    }
  }

  lemma CachedIsTruthy(lib: Library, w: World)
    requires Valid(lib, w)
    ensures forall f :: f in w.cache ==> Truthy(w.cache[f])
  {
  }

  lemma AddedIsNext(lib: Library, script: Script, start: World, events: seq<Event>, e: Event)
    requires forall k :: 0 <= k < |events| ==> IsNext(lib, script, start, events, k)
    requires e.action == script.next(Replies(events)) && IsStep(lib, Before(start, events, |events|), e)
    ensures forall k :: 0 <= k <= |events| ==> IsNext(lib, script, start, events + [e], k)
    ensures Replies(events + [e]) == Replies(events) + [e.reply]
  {
    hide IsStep;
    var more := events + [e];
    assert more[..|events|] == events;
    forall k | 0 <= k <= |events| ensures IsNext(lib, script, start, more, k) {
      assert more[..k] == events[..k];
      if k < |events| {
        assert IsNext(lib, script, start, events, k);
      }
    }
  }

  /** A body can be traced on from any event. */
  lemma {:induction false} RunHasTrace(lib: Library, file: string, start: World, events: seq<Event>, w: World)
      returns (t: Trace)
    requires Valid(lib, w) && TruthyExports(lib) && lib.script(file).Some? && |events| <= lib.script(file).value.bound
    requires w == Before(start, events, |events|)
    requires forall k :: 0 <= k < |events| ==> IsNext(lib, lib.script(file).value, start, events, k)
    ensures t.file == file && t.start == start && IsRun(lib, t)
    ensures var r := EvalBody(lib, file, lib.script(file).value, Replies(events), w);
      t.threw == r.Threw? && t.end == r.w
    decreases Unloaded(lib, w), 3, lib.script(file).value.bound - |events|
  {
    hide EvalBody, EvalRequire, Unloaded, Valid, TruthyExports, IsAnswer, IsNext, Grows, Assign, Replies;
    var script := lib.script(file).value;
    var replies := Replies(events);
    if |events| == script.bound {
      BodyDone(lib, file, script, replies, w);
      t := Trace(file, start, events, w, false, None);
      return;
    }
    BodyStep(lib, file, script, replies, w);
    match script.next(replies) {
      case End =>
        t := Trace(file, start, events, w, false, None);
      case Throw =>
        t := Trace(file, start, events, w, true, None);
      case Require(id, from, caught) =>
        var r := EvalRequire(lib, id, from, w);
        var loaded := RequireHasTrace(lib, id, from, w);
        if r.Threw? && !caught {
          t := Trace(file, start, events, r.w, true, loaded);
        } else {
          var e := Event(script.next(replies), if r.Returned? then Got(r.v) else Raised, r.w, loaded);
          AddedIsNext(lib, script, start, events, e);
          t := RunHasTrace(lib, file, start, events + [e], r.w);
        }
      case SetExports(target, v) =>
        var w1 := if target in w.exports then Assign(w, target, v) else w;
        AssignIs(w, target, v);
        var e := Event(script.next(replies), Noted, w1, None);
        AddedIsNext(lib, script, start, events, e);
        t := RunHasTrace(lib, file, start, events + [e], w1);
    }
  }

  lemma AssignIs(w: World, file: string, v: Value)
    ensures Assign(w, file, v) == w.(exports := w.exports[file := v], cache := w.cache[file := v])
  {
  }

  /** And a trace tells what `require` does: there is no other answer. */
  lemma {:induction false} TraceIsRequire(lib: Library, id: string, parent: string, w: World, r: Outcome,
                                          loaded: Option<Trace>)
    requires Valid(lib, w) && TruthyExports(lib) && IsAnswer(lib, id, parent, w, r, loaded)
    ensures r == EvalRequire(lib, id, parent, w)
    decreases loaded, 1
  {
    CachedIsTruthy(lib, w);
    hide Valid, TruthyExports, EvalLoad, IsLoad, Unloaded, Grows;
    var file := Resolve(lib, id, parent);
    if file.Some? && file.value !in w.cache && !IsJson(file.value) {
      TraceIsLoad(lib, file.value, parent, w, r, loaded);
    }
  }

  lemma {:induction false} TraceIsLoad(lib: Library, file: string, parent: string, w: World, r: Outcome,
                                       loaded: Option<Trace>)
    requires Valid(lib, w) && TruthyExports(lib) && file in lib.files && file !in w.cache && !IsJson(file)
    requires IsLoad(lib, file, parent, w, r, loaded)
    ensures r == EvalLoad(lib, file, parent, w)
    decreases loaded, 0
  {
    MadeIsConstructed(lib, w, file, parent);
    ConstructKeeps(lib, w, file, parent);
    hide EvalBody, Unloaded, Valid, TruthyExports, IsRun, Grows, Construct, Made;
    if loaded.Some? {
      TraceIsBody(lib, loaded.value);
    }
  }

  lemma {:induction false} TraceIsBody(lib: Library, t: Trace)
    requires IsRun(lib, t) && Valid(lib, t.start) && TruthyExports(lib)
    ensures var r := EvalBody(lib, t.file, lib.script(t.file).value, [], t.start); t.threw == r.Threw? && t.end == r.w
    decreases t, 1
  {
    hide EvalBody, EvalRequire, Unloaded, Valid, TruthyExports, IsAnswer, IsNext, Grows;
    var script, n := lib.script(t.file).value, |t.events|;
    var w := Before(t.start, t.events, n);
    TraceUpTo(lib, t, n);
    assert t.events[..n] == t.events;
    if n == script.bound {
      BodyDone(lib, t.file, script, Replies(t.events), w);
    } else {
      BodyStep(lib, t.file, script, Replies(t.events), w);
      var a := script.next(Replies(t.events));
      if a.Require? {
        TraceIsRequire(lib, a.id, a.from, w, Threw(t.end), t.failed);
      }
    }
  }

  /** The first `k` events are the first `k` actions of the body. */
  lemma {:induction false} TraceUpTo(lib: Library, t: Trace, k: nat)
    requires IsRun(lib, t) && Valid(lib, t.start) && TruthyExports(lib) && k <= |t.events|
    ensures Valid(lib, Before(t.start, t.events, k))
    ensures EvalBody(lib, t.file, lib.script(t.file).value, [], t.start)
         == EvalBody(lib, t.file, lib.script(t.file).value, Replies(t.events[..k]), Before(t.start, t.events, k))
    decreases t, 0, k
  {
    var script := lib.script(t.file).value;
    if k == 0 {
      assert t.events[..0] == [];
    } else {
      assert IsNext(lib, script, t.start, t.events, k - 1);
      hide EvalBody, Unloaded, Valid, TruthyExports, IsStep, IsRun, Grows, Assign;
      TraceUpTo(lib, t, k - 1);
      var w, e := Before(t.start, t.events, k - 1), t.events[k - 1];
      var replies := Replies(t.events[..k - 1]);
      assert t.events[..k][..k - 1] == t.events[..k - 1];
      assert Replies(t.events[..k]) == replies + [e.reply];
      StepIsEval(lib, t.file, script, replies, w, e);
    }
  }

  /** One event is one action of the body. */
  lemma {:induction false} StepIsEval(lib: Library, file: string, script: Script, replies: seq<Reply>, w: World,
                                      e: Event)
    requires Valid(lib, w) && TruthyExports(lib) && lib.script(file) == Some(script) && |replies| < script.bound
    requires e.action == script.next(replies) && IsStep(lib, w, e)
    ensures Valid(lib, e.after)
    ensures EvalBody(lib, file, script, replies, w) == EvalBody(lib, file, script, replies + [e.reply], e.after)
    decreases e, 0
  {
    hide EvalBody, EvalRequire, Unloaded, Valid, TruthyExports, IsAnswer, Grows, Assign;
    BodyStep(lib, file, script, replies, w);
    match e.action {
      case Require(id, from, caught) =>
        var r := if e.reply.Got? then Returned(e.reply.v, e.after) else Threw(e.after);
        TraceIsRequire(lib, id, from, w, r, e.loaded);
      case SetExports(target, v) =>
        AssignIs(w, target, v);
    }
  }

  // --------------------------------------------------------------------- assignments

  /** All assignments to exports in a run, those of the runs inside it where they happen. */
  function Assignments(events: seq<Event>): seq<(string, Value)>
    decreases events, 0
  {
    if events == [] then [] else Assignments(events[..|events| - 1]) + AssignedBy(events[|events| - 1])
  }

  function AssignedBy(e: Event): seq<(string, Value)>
    decreases e, 0
  {
    if e.action.SetExports? then [(e.action.file, e.action.v)] else AssignedIn(e.loaded)
  }

  function AssignedIn(loaded: Option<Trace>): seq<(string, Value)>
    decreases loaded, 1
  {
    match loaded
    case None => []
    case Some(t) => AssignedInBody(t)
  }

  function AssignedInBody(t: Trace): seq<(string, Value)>
    decreases t, 0
  {
    Assignments(t.events) + AssignedIn(t.failed)
  }

  /** The last value assigned to the exports of `file`, or what they were. */
  function LastAssigned(assignments: seq<(string, Value)>, file: string, before: Value): Value {
    if assignments == [] then before
    else if assignments[|assignments| - 1].0 == file then assignments[|assignments| - 1].1
    else LastAssigned(assignments[..|assignments| - 1], file, before)
  }

  lemma {:induction false} LastAssignedAppend(a: seq<(string, Value)>, b: seq<(string, Value)>, file: string,
                                              before: Value)
    ensures LastAssigned(a + b, file, before) == LastAssigned(b, file, LastAssigned(a, file, before))
    decreases |b|
  {
    if b == [] {
      assert a + b == a;
    } else {
      assert (a + b)[..|a + b| - 1] == a + b[..|b| - 1];
      LastAssignedAppend(a, b[..|b| - 1], file, before);
    }
  }

  /** `file` has a module in both worlds, and its exports are what was last assigned in between. */
  ghost predicate ExportsFollow(file: string, w: World, assignments: seq<(string, Value)>, w': World) {
    && SameKeys(w') && file in w.exports && file in w'.exports
    && w'.exports[file] == LastAssigned(assignments, file, w.exports[file])
  }

  predicate SameKeys(w: World) { w.cache.Keys == w.exports.Keys }

  lemma {:induction false} StepExports(lib: Library, w: World, e: Event, file: string)
    requires IsStep(lib, w, e) && SameKeys(w) && file in w.exports
    ensures ExportsFollow(file, w, AssignedBy(e), e.after)
    decreases e, 1
  {
    hide IsAnswer, AssignedIn;
    match e.action {
      case SetExports(target, v) =>
        assert LastAssigned([(target, v)], file, w.exports[file])
            == if target == file then v else LastAssigned([], file, w.exports[file]);
      case Require(id, from, caught) =>
        var r := if e.reply.Got? then Returned(e.reply.v, e.after) else Threw(e.after);
        AnswerExports(lib, id, from, w, r, e.loaded, file);
    }
  }

  lemma {:induction false} AnswerExports(lib: Library, id: string, parent: string, w: World, r: Outcome,
                                         loaded: Option<Trace>, file: string)
    requires IsAnswer(lib, id, parent, w, r, loaded) && SameKeys(w) && file in w.exports
    ensures ExportsFollow(file, w, AssignedIn(loaded), r.w)
    decreases loaded, 2
  {
    hide IsRun;
    if loaded.Some? {
      var t := loaded.value;
      assert t.start.exports[file] == w.exports[file];
      assert SameKeys(t.start) by { MadeKeys(w, t.file, parent); }
      hide IsAnswer, IsLoad;
      BodyExports(lib, t, file);
    } else {
      var name := Resolve(lib, id, parent);
      if name.Some? {
        MadeKeys(w, name.value, parent);
      }
    }
  }

  lemma MadeKeys(w: World, file: string, parent: string)
    requires SameKeys(w)
    ensures SameKeys(Made(w, file, parent))
  {
  }

  lemma {:induction false} BodyExports(lib: Library, t: Trace, file: string)
    requires IsRun(lib, t) && SameKeys(t.start) && file in t.start.exports
    ensures ExportsFollow(file, t.start, AssignedInBody(t), t.end)
    decreases t, 2
  {
    var script, n := lib.script(t.file).value, |t.events|;
    var w := Before(t.start, t.events, n);
    EventsExports(lib, t, n, file);
    assert t.events[..n] == t.events;
    LastAssignedAppend(Assignments(t.events), AssignedIn(t.failed), file, t.start.exports[file]);
    hide IsAnswer, Assignments, IsNext, LastAssigned;
    if t.failed.Some? {
      var a := script.next(Replies(t.events));
      AnswerExports(lib, a.id, a.from, w, Threw(t.end), t.failed, file);
    } else {
      NothingAssigned(file, w.exports[file]);
      if n < script.bound && script.next(Replies(t.events)).Require? {
        var a := script.next(Replies(t.events));
        AnswerExports(lib, a.id, a.from, w, Threw(t.end), t.failed, file);
      }
    }
  }

  lemma NothingAssigned(file: string, before: Value)
    ensures LastAssigned([], file, before) == before
  {
  }

  lemma {:induction false} EventsExports(lib: Library, t: Trace, k: nat, file: string)
    requires IsRun(lib, t) && SameKeys(t.start) && file in t.start.exports && k <= |t.events|
    ensures ExportsFollow(file, t.start, Assignments(t.events[..k]), Before(t.start, t.events, k))
    decreases t, 1, k
  {
    var script := lib.script(t.file).value;
    if k == 0 {
      assert t.events[..0] == [];
    } else {
      assert IsNext(lib, script, t.start, t.events, k - 1);
      hide IsRun;
      EventsExports(lib, t, k - 1, file);
      var w, e, init := Before(t.start, t.events, k - 1), t.events[k - 1], t.events[..k - 1];
      assert t.events[..k][..k - 1] == init && t.events[..k][k - 1] == e;
      assert IsStep(lib, w, e);
      hide IsStep, IsNext;
      StepExports(lib, w, e, file);
      LastAssignedAppend(Assignments(init), AssignedBy(e), file, t.start.exports[file]);
      assert Assignments(t.events[..k]) == Assignments(init) + AssignedBy(e);
    }
  }

  // ------------------------------------------------------------------------ results

  /** The first `require` of a file: its module is made, its body runs, and what it assigned last is returned. */
  lemma FirstRequireRunsBody(lib: Library, id: string, parent: string, w: World) returns (loaded: Option<Trace>)
    requires Valid(lib, w) && TruthyExports(lib) && Resolve(lib, id, parent).Some?
    requires Resolve(lib, id, parent).value !in w.cache && !IsJson(Resolve(lib, id, parent).value)
    ensures var file, r := Resolve(lib, id, parent).value, EvalRequire(lib, id, parent, w);
      if lib.script(file).None? then loaded.None? && r.Threw?
      else
        && loaded.Some? && loaded.value.file == file && IsRun(lib, loaded.value)
        && loaded.value.start == Made(w, file, parent).(runs := w.runs + [file])
        && (r.Threw? <==> loaded.value.threw)
        && (r.Returned? ==> r.v == LastAssigned(AssignedInBody(loaded.value), file, Object(w.next)))
  {
    var file := Resolve(lib, id, parent).value;
    loaded := RequireHasTrace(lib, id, parent, w);
    assert IsLoad(lib, file, parent, w, EvalRequire(lib, id, parent, w), loaded);
    hide IsAnswer, EvalRequire, IsRun;
    if loaded.Some? {
      MadeKeys(w, file, parent);
      BodyExports(lib, loaded.value, file);
    }
  }

  /** A body that assigns its exports and ends makes the first `require` return what it assigned. */
  lemma AssignedIsReturned(lib: Library, id: string, parent: string, w: World, script: Script, v: Value)
    requires Valid(lib, w) && TruthyExports(lib) && Resolve(lib, id, parent).Some?
    requires var file := Resolve(lib, id, parent).value;
      && file !in w.cache && !IsJson(file) && lib.script(file) == Some(script) && script.bound > 0
      && script.next([]) == SetExports(file, v) && (script.bound > 1 ==> script.next([Noted]).End?)
    ensures EvalRequire(lib, id, parent, w).Returned? && EvalRequire(lib, id, parent, w).v == v
  {
    var file := Resolve(lib, id, parent).value;
    var start := Start(Construct(w, file, parent), file);
    ConstructKeeps(lib, w, file, parent);
    hide EvalBody, Construct, Valid, TruthyExports, Grows, Unloaded;
    assert EvalRequire(lib, id, parent, w) == EvalLoad(lib, file, parent, w);
    AssigningBody(lib, file, script, start, v);
  }

  lemma AssigningBody(lib: Library, file: string, script: Script, w: World, v: Value)
    requires Valid(lib, w) && TruthyExports(lib) && lib.script(file) == Some(script) && file in w.exports
    requires script.bound > 0 && script.next([]) == SetExports(file, v)
    requires script.bound > 1 ==> script.next([Noted]).End?
    ensures var r := EvalBody(lib, file, script, [], w);
      r.Returned? && file in r.w.exports && r.w.exports[file] == v
  {
    var w1 := Assign(w, file, v);
    AssignIs(w, file, v);
    assert [] + [Noted] == [Noted];
    hide Valid, TruthyExports, Grows, Unloaded, Assign;
    BodyStep(lib, file, script, [], w);
    if script.bound > 1 {
      BodyStep(lib, file, script, [Noted], w1);
    } else {
      BodyDone(lib, file, script, [Noted], w1);
    }
  }

  /** A body that throws makes its first `require` throw. */
  lemma ThrowingBodyThrows(lib: Library, id: string, parent: string, w: World, script: Script)
    requires Valid(lib, w) && TruthyExports(lib) && Resolve(lib, id, parent).Some?
    requires var file := Resolve(lib, id, parent).value;
      && file !in w.cache && !IsJson(file) && lib.script(file) == Some(script) && script.bound > 0
      && script.next([]).Throw?
    ensures EvalRequire(lib, id, parent, w).Threw?
  {
    var file := Resolve(lib, id, parent).value;
    ConstructKeeps(lib, w, file, parent);
    var start := Start(Construct(w, file, parent), file);
    assert EvalRequire(lib, id, parent, w) == EvalLoad(lib, file, parent, w);
    hide Construct, Valid, TruthyExports, Grows, Unloaded;
    BodyStep(lib, file, script, [], start);
  }

  /** A `.json` file is returned if and only if it parses. */
  lemma JsonReturnedIfItParses(lib: Library, id: string, parent: string, w: World)
    requires Valid(lib, w) && TruthyExports(lib)
    requires Resolve(lib, id, parent).Some? && IsJson(Resolve(lib, id, parent).value)
    ensures var r := EvalRequire(lib, id, parent, w);
      && (r.Returned? <==> lib.json(Resolve(lib, id, parent).value))
      && (r.Returned? ==> r.v == Object(w.next))
  {
    hide EvalLoad, TruthyExports;
  }
}
