/**
 * What `require` means: modules that cache their exports as they are assigned, and module bodies that
 * require one another in any way, cycles included.
 */
module CommonJs {
  import opened Options
  import Paths = CommonJsPaths
  import Seqs

  datatype Value = Falsy | Object(id: nat) | Given(id: nat)

  predicate Truthy(v: Value) { v != Falsy }

  /** What a body is told about its last action. */
  datatype Reply = Got(v: Value) | Raised | Noted

  /**
   * What a body does next. It may require on behalf of any module, caught or not, and assign the exports of
   * any module it can reach, as functions other modules exported let it do.
   */
  datatype Action = End | Throw | Require(id: string, from: string, caught: bool) | SetExports(file: string, v: Value)

  /** A body as a program: its next action from the replies so far, and how many it makes at most. */
  datatype Script = Script(bound: nat, next: seq<Reply> -> Action)

  /** `script` is `None` for a file that cannot be read or compiled; `json` says whether a file parses. */
  datatype Library = Library(files: set<string>, script: string -> Option<Script>, json: string -> bool)

  predicate IsJson(file: string) { Seqs.EndsWith(file, ".json") }

  /** No body assigns falsy exports: a falsy entry of the cache does not count as one. */
  ghost predicate TruthyExports(lib: Library) {
    forall file, replies ::
      lib.script(file).Some? && lib.script(file).value.next(replies).SetExports? ==>
        Truthy(lib.script(file).value.next(replies).v)
  }

  /** `runs` lists the files whose bodies were started, in order; `next` names the next new object. */
  datatype World = World(
    cache: map<string, Value>,
    exports: map<string, Value>,
    children: map<string, seq<string>>,
    loaded: set<string>,
    runs: seq<string>,
    next: nat)

  const EMPTY := World(map[], map[], map[], {}, [], 0)

  /** The cache is the exports of each file's one module, and no body was started twice. */
  ghost predicate Valid(lib: Library, w: World) {
    && w.cache == w.exports && w.children.Keys == w.exports.Keys
    && w.cache.Keys <= lib.files
    && (forall f :: f in w.cache ==> Truthy(w.cache[f]) && !IsJson(f))
    && (forall i, j :: 0 <= i < j < |w.runs| ==> w.runs[i] != w.runs[j])
    && (forall f :: f in w.runs ==> f in w.cache)
    && w.loaded <= w.cache.Keys
  }

  /** Nothing is forgotten, and no file that was cached is started again. */
  ghost predicate Grows(w: World, w': World) {
    && w.cache.Keys <= w'.cache.Keys
    && w.runs <= w'.runs
    && (forall i :: |w.runs| <= i < |w'.runs| ==> w'.runs[i] !in w.cache)
    && w.loaded <= w'.loaded
    && w.next <= w'.next
  }

  /** Files that no module was made for yet. */
  function Unloaded(lib: Library, w: World): nat { |lib.files - w.cache.Keys| }

  lemma UnloadedShrinks(lib: Library, w: World, w': World)
    requires w.cache.Keys <= w'.cache.Keys
    ensures Unloaded(lib, w') <= Unloaded(lib, w)
    ensures (exists f :: f in lib.files && f !in w.cache && f in w'.cache) ==> Unloaded(lib, w') < Unloaded(lib, w)
  {
    var a, b := lib.files - w.cache.Keys, lib.files - w'.cache.Keys;
    Subset(b, a);
    if f :| f in lib.files && f !in w.cache && f in w'.cache {
      Subset(b, a - {f});
    }
  }

  lemma {:induction false} Subset(a: set<string>, b: set<string>)
    requires a <= b
    ensures |a| <= |b|
    decreases |a|
  {
    if a != {} {
      var x :| x in a;
      Subset(a - {x}, b - {x});
    }
  }

  lemma GrowsOn(a: World, b: World, c: World)
    requires Grows(a, b) && Grows(b, c)
    ensures Grows(a, c)
  {
    forall i | |a.runs| <= i < |c.runs| ensures c.runs[i] !in a.cache {
      if i < |b.runs| {
        assert c.runs[i] == b.runs[i];
      }
    }
  }

  datatype Outcome = Returned(v: Value, w: World) | Threw(w: World)

  function Resolve(lib: Library, id: string, parent: string): Option<string> {
    var file := Paths.Target(id, parent);
    if file in lib.files then Some(file) else None
  }

  /** Assigning `module.exports` also writes the cache. */
  function Assign(w: World, file: string, v: Value): World {
    w.(cache := w.cache[file := v], exports := w.exports[file := v])
  }

  /** A new module starts with a new object for its exports, and is a child of the one that required it. */
  function Construct(w: World, file: string, parent: string): World {
    var w1 := Assign(w, file, Object(w.next)).(next := w.next + 1);
    var linked := if parent in w.children then w.children[parent := w.children[parent] + [file]] else w.children;
    w1.(children := linked[file := []])
  }

  function Start(w: World, file: string): World { w.(runs := w.runs + [file]) }

  lemma AddedKeeps(lib: Library, w: World, file: string, w': World)
    requires Valid(lib, w) && file in lib.files && file !in w.cache && !IsJson(file)
    requires w'.cache == w.cache[file := Object(w.next)] && w'.exports == w.exports[file := Object(w.next)]
    requires w'.children.Keys == w.children.Keys + {file} && w'.loaded == w.loaded
    requires w'.runs == w.runs && w'.next == w.next + 1
    ensures Valid(lib, w') && Grows(w, w')
  {
    assert w'.exports.Keys == w.exports.Keys + {file};
  }

  lemma StartKeeps(lib: Library, before: World, w: World, file: string)
    requires Valid(lib, w) && Grows(before, w) && file in w.cache && file !in before.cache && w.runs == before.runs
    requires Valid(lib, before)
    ensures Valid(lib, Start(w, file)) && Grows(before, Start(w, file))
  {
    assert file !in before.runs;
  }

  lemma ConstructKeeps(lib: Library, w: World, file: string, parent: string)
    requires Valid(lib, w) && file in lib.files && file !in w.cache && !IsJson(file)
    ensures var w1 := Construct(w, file, parent);
            Valid(lib, w1) && Grows(w, w1) && file in w1.cache && w1.runs == w.runs
    ensures var w2 := Start(Construct(w, file, parent), file); Valid(lib, w2) && Grows(w, w2)
    ensures Unloaded(lib, Construct(w, file, parent)) < Unloaded(lib, w)
    ensures Unloaded(lib, Start(Construct(w, file, parent), file)) < Unloaded(lib, w)
  {
    var w1 := Construct(w, file, parent);
    assert w1.cache == w.cache[file := Object(w.next)] && w1.exports == w.exports[file := Object(w.next)];
    assert w1.children.Keys == w.children.Keys + {file};
    assert w1.loaded == w.loaded && w1.runs == w.runs && w1.next == w.next + 1;
    hide Construct, Valid, Grows, Unloaded;
    AddedKeeps(lib, w, file, w1);
    StartKeeps(lib, w, w1, file);
    UnloadedShrinks(lib, w, w1);
    UnloadedShrinks(lib, w, Start(w1, file));
  }

  lemma AssignKeeps(lib: Library, w: World, file: string, v: Value)
    requires Valid(lib, w) && file in w.exports && Truthy(v)
    ensures Valid(lib, Assign(w, file, v)) && Grows(w, Assign(w, file, v))
    ensures Unloaded(lib, Assign(w, file, v)) == Unloaded(lib, w)
  {
    assert Assign(w, file, v).cache.Keys == w.cache.Keys;
  }

  function EvalRequire(lib: Library, id: string, parent: string, w: World): (r: Outcome)
    requires Valid(lib, w) && TruthyExports(lib)
    ensures Valid(lib, r.w) && Grows(w, r.w) && Unloaded(lib, r.w) <= Unloaded(lib, w)
    decreases Unloaded(lib, w), 2, 0
  {
    var file := Resolve(lib, id, parent);
    if file.None? then Threw(w)
    else if file.value in w.cache && Truthy(w.cache[file.value]) then Returned(w.cache[file.value], w)
    else if IsJson(file.value) then
      (if lib.json(file.value) then Returned(Object(w.next), w.(next := w.next + 1)) else Threw(w))
    else EvalLoad(lib, file.value, parent, w)
  }

  function EvalLoad(lib: Library, file: string, parent: string, w: World): (r: Outcome)
    requires Valid(lib, w) && TruthyExports(lib) && file in lib.files && file !in w.cache && !IsJson(file)
    ensures Valid(lib, r.w) && Grows(w, r.w) && Unloaded(lib, r.w) <= Unloaded(lib, w)
    ensures file in r.w.cache && (r.Returned? ==> r.v == r.w.cache[file])
    decreases Unloaded(lib, w), 1, 0
  {
    ConstructKeeps(lib, w, file, parent);
    var w1 := Construct(w, file, parent);
    var script := lib.script(file);
    if script.None? then Threw(w1)
    else
      var r := EvalBody(lib, file, script.value, [], Start(w1, file));
      GrowsOn(w, Start(w1, file), r.w);
      if r.Threw? then r
      else
        var w2 := r.w.(loaded := r.w.loaded + {file});
        Returned(w2.exports[file], w2)
  }

  /** The rest of a body, after the actions it has had replies to. */
  function EvalBody(lib: Library, file: string, script: Script, replies: seq<Reply>, w: World): (r: Outcome)
    requires Valid(lib, w) && TruthyExports(lib) && lib.script(file) == Some(script)
    ensures Valid(lib, r.w) && Grows(w, r.w) && Unloaded(lib, r.w) <= Unloaded(lib, w)
    decreases Unloaded(lib, w), 3, if |replies| < script.bound then script.bound - |replies| else 0
  {
    if |replies| >= script.bound then Returned(Falsy, w)
    else match script.next(replies)
      case End => Returned(Falsy, w)
      case Throw => Threw(w)
      case Require(id, from, caught) =>
        var r := EvalRequire(lib, id, from, w);
        if r.Threw? && !caught then r
        else
          var rest := EvalBody(lib, file, script, replies + [if r.Returned? then Got(r.v) else Raised], r.w);
          GrowsOn(w, r.w, rest.w);
          rest
      case SetExports(target, v) =>
        assert Truthy(lib.script(file).value.next(replies).v);
        var w1 := if target in w.exports then Assign(w, target, v) else w;
        assert Valid(lib, w1) && Grows(w, w1) && Unloaded(lib, w1) <= Unloaded(lib, w) by {
          if target in w.exports { AssignKeeps(lib, w, target, v); }
        }
        var rest := EvalBody(lib, file, script, replies + [Noted], w1);
        GrowsOn(w, w1, rest.w);
        rest
  }

  /** One action of a body. */
  lemma BodyStep(lib: Library, file: string, script: Script, replies: seq<Reply>, w: World)
    requires Valid(lib, w) && TruthyExports(lib) && lib.script(file) == Some(script) && |replies| < script.bound
    ensures var a := script.next(replies);
      && (a.End? ==> EvalBody(lib, file, script, replies, w) == Returned(Falsy, w))
      && (a.Throw? ==> EvalBody(lib, file, script, replies, w) == Threw(w))
      && (a.Require? ==>
            var r := EvalRequire(lib, a.id, a.from, w);
            EvalBody(lib, file, script, replies, w)
              == if r.Threw? && !a.caught then r
                 else EvalBody(lib, file, script, replies + [if r.Returned? then Got(r.v) else Raised], r.w))
      && (a.SetExports? ==>
            var w1 := if a.file in w.exports then Assign(w, a.file, a.v) else w;
            Valid(lib, w1) && Unloaded(lib, w1) <= Unloaded(lib, w)
            && EvalBody(lib, file, script, replies, w) == EvalBody(lib, file, script, replies + [Noted], w1))
  {
    hide EvalRequire;
    var a := script.next(replies);
    if a.SetExports? && a.file in w.exports {
      assert Truthy(lib.script(file).value.next(replies).v);
      AssignKeeps(lib, w, a.file, a.v);
    }
  }

  lemma BodyDone(lib: Library, file: string, script: Script, replies: seq<Reply>, w: World)
    requires Valid(lib, w) && TruthyExports(lib) && lib.script(file) == Some(script) && |replies| >= script.bound
    ensures EvalBody(lib, file, script, replies, w) == Returned(Falsy, w)
  {
  }

  // --------------------------------------------------------------------- results

  /** Any calls of `require`, one after another. */
  datatype Call = Call(id: string, parent: string)

  function Session(lib: Library, calls: seq<Call>, w: World): (w': World)
    requires Valid(lib, w) && TruthyExports(lib)
    ensures Valid(lib, w') && Grows(w, w')
    decreases |calls|
  {
    if calls == [] then w
    else
      var r := EvalRequire(lib, calls[0].id, calls[0].parent, w);
      var w' := Session(lib, calls[1..], r.w);
      GrowsOn(w, r.w, w');
      w'
  }

  /** However modules require one another, a body is started at most once in a session. */
  lemma BodiesRunOnce(lib: Library, calls: seq<Call>)
    requires TruthyExports(lib)
    ensures Valid(lib, EMPTY)
    ensures var runs := Session(lib, calls, EMPTY).runs; forall i, j :: 0 <= i < j < |runs| ==> runs[i] != runs[j]
  {
    assert Valid(lib, EMPTY);
    assert Valid(lib, Session(lib, calls, EMPTY));
  }

  /**
   * Once `require` has returned a module's exports, any later `require` of the same file, from anywhere and
   * after anything, returns what that module exports by then, and starts and makes nothing.
   */
  lemma LaterRequiresAgree(lib: Library, id: string, parent: string, w: World, calls: seq<Call>, id': string,
                           parent': string)
    requires Valid(lib, w) && TruthyExports(lib)
    requires EvalRequire(lib, id, parent, w).Returned? && Resolve(lib, id, parent).Some?
    requires Resolve(lib, id', parent') == Resolve(lib, id, parent) && !IsJson(Resolve(lib, id, parent).value)
    ensures var file := Resolve(lib, id, parent).value;
            var w1 := EvalRequire(lib, id, parent, w).w;
            var w2 := Session(lib, calls, w1);
      && file in w1.exports && EvalRequire(lib, id, parent, w).v == w1.exports[file]
      && file in w2.exports && EvalRequire(lib, id', parent', w2) == Returned(w2.exports[file], w2)
  {
    hide EvalLoad, EvalBody, Session, Resolve, Unloaded, TruthyExports;
  }

  /** A `.json` file is parsed anew each time: two requires of it return different objects. */
  lemma JsonIsNeverCached(lib: Library, id: string, parent: string, w: World, calls: seq<Call>)
    requires Valid(lib, w) && TruthyExports(lib)
    requires Resolve(lib, id, parent).Some? && IsJson(Resolve(lib, id, parent).value)
    requires EvalRequire(lib, id, parent, w).Returned?
    ensures var r := EvalRequire(lib, id, parent, w);
            var r' := EvalRequire(lib, id, parent, Session(lib, calls, r.w));
      r'.Returned? && r'.v != r.v && Resolve(lib, id, parent).value !in r'.w.cache
  {
    hide EvalLoad, EvalBody, Resolve, Unloaded, TruthyExports;
    var r := EvalRequire(lib, id, parent, w);
    var w2 := Session(lib, calls, r.w);
    assert Grows(r.w, w2) && Valid(lib, w2);
  }

  /** A body that throws leaves its module behind: later requires get what it had exported, and do not run it again. */
  lemma FailedLoadsStay(lib: Library, id: string, parent: string, w: World, calls: seq<Call>)
    requires Valid(lib, w) && TruthyExports(lib)
    requires Resolve(lib, id, parent).Some? && !IsJson(Resolve(lib, id, parent).value)
    requires EvalRequire(lib, id, parent, w).Threw?
    ensures var file := Resolve(lib, id, parent).value;
            var w2 := Session(lib, calls, EvalRequire(lib, id, parent, w).w);
      file in w2.exports && EvalRequire(lib, id, parent, w2) == Returned(w2.exports[file], w2)
  {
    hide EvalLoad, EvalBody, Session, Resolve, Unloaded, TruthyExports;
  }
}
