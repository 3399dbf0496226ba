/**
 * The CommonJS loader as it runs: module objects, the cache their setters write, and the loop over a body's
 * actions.
 */
module CommonJsLoader {
  import opened CommonJs
  import opened Options
  import Paths = CommonJsPaths

  datatype Result = Ok(value: Value) | Err

  function AsOutcome(r: Result, w: World): Outcome { if r.Ok? then Returned(r.value, w) else Threw(w) }

  class Module {
    const filename: string
    var exports: Value
    var children: seq<Module>
    var loaded: bool

    constructor (filename: string, exports: Value)
      ensures this.filename == filename && this.exports == exports && children == [] && !loaded
    {
      this.filename, this.exports, children, loaded := filename, exports, [], false;
    }
  }

  function Names(modules: seq<Module>): (names: seq<string>)
    ensures |names| == |modules|
  {
    if modules == [] then [] else [modules[0].filename] + Names(modules[1..])
  }

  lemma NoNames()
    ensures Names([]) == []
  {
  }

  lemma {:induction false} NamesAppend(modules: seq<Module>, m: Module)
    ensures Names(modules + [m]) == Names(modules) + [m.filename]
    decreases |modules|
  {
    if modules == [] {
      assert modules + [m] == [m];
    } else {
      assert (modules + [m])[1..] == modules[1..] + [m];
      NamesAppend(modules[1..], m);
    }
  }

  predicate Sub(a: map<string, Module>, b: map<string, Module>) {
    forall f :: f in a ==> f in b && b[f] == a[f]
  }

  class Loader {
    const lib: Library
    var cache: map<string, Value>
    /** The module of each file, reached in the source by what it handed `module` to. */
    var modules: map<string, Module>
    var next: nat
    /** What all of this amounts to. */
    ghost var world: World

    ghost var made: set<Module>

    ghost predicate Mirrors(m: Module, f: string)
      requires f in world.exports && f in world.children
      reads this, m
    {
      && m.filename == f && m.exports == world.exports[f]
      && Names(m.children) == world.children[f] && (m.loaded <==> f in world.loaded)
    }

    /** The module objects say what `world` says of them. */
    ghost predicate Linked()
      requires modules.Keys == world.exports.Keys == world.children.Keys
      reads this, made
    {
      forall f :: f in modules ==> modules[f] in made && Mirrors(modules[f], f)
    }

    ghost predicate Tied()
      reads this
    {
      cache == world.cache && next == world.next && modules.Keys == world.exports.Keys == world.children.Keys
    }

    ghost predicate Good()
      reads this, made
    {
      Tied() && Linked() && Valid(lib, world) && TruthyExports(lib)
    }

    constructor (lib: Library)
      requires TruthyExports(lib)
      ensures Good() && this.lib == lib && world == EMPTY && made == {}
    {
      this.lib := lib;
      cache, modules, next, world, made := map[], map[], 0, EMPTY, {};
    }

    /** The `exports` setter. */
    method SetExports(file: string, v: Value)
      requires Good() && Truthy(v) && file in modules
      modifies this, made
      ensures Good() && made == old(made) && modules == old(modules) && world == Assign(old(world), file, v)
    {
      hide Valid, TruthyExports, Grows, Unloaded, Assign;
      ghost var w, w' := world, Assign(world, file, v);
      AssignFields(lib, w, file, v);
      var m := modules[file];
      m.exports := v;
      cache := cache[file := v];
      world := w';
      assert Tied();
      forall f | f in modules ensures modules[f] in made && Mirrors(modules[f], f) {
        assert f != file ==> modules[f] != m;
      }
      assert Linked();
      hide Linked, Mirrors, Tied;
    }

    /** `parent.children.push(self)`. */
    method AddChild(parent: string, m: Module)
      requires Good() && parent in modules && m !in made
      modifies this`world, made
      ensures Good() && unchanged(m)
      ensures world
          == old(world).(children := old(world).children[parent := old(world).children[parent] + [m.filename]])
    {
      hide Valid, TruthyExports;
      ChildKeeps(lib, world, parent, m.filename);
      NamesAppend(modules[parent].children, m);
      modules[parent].children := modules[parent].children + [m];
      world := world.(children := world.children[parent := world.children[parent] + [m.filename]]);
      forall f | f in modules ensures modules[f] in made && Mirrors(modules[f], f) {
        assert f != parent ==> modules[f].filename != modules[parent].filename;
      }
      assert Tied() && Linked();
      hide Linked, Mirrors, Tied;
    }

    /** Files the module and caches its exports, as constructing it does. */
    method Register(m: Module)
      requires Good() && m !in made && m.filename in lib.files && m.filename !in cache && !IsJson(m.filename)
      requires m.exports == Object(next) && m.children == [] && !m.loaded
      modifies this
      ensures Good() && made == old(made) + {m} && modules == old(modules)[m.filename := m]
      ensures world == Registered(old(world), m.filename)
    {
      ghost var file, w := m.filename, world;
      RegisteredKeeps(lib, w, file);
      hide Valid, TruthyExports, Grows, Registered, Mirrors;
      cache := cache[m.filename := Object(next)];
      modules := modules[m.filename := m];
      next := next + 1;
      made := made + {m};
      world := Registered(w, file);
      assert modules.Keys == old(modules.Keys) + {file};
      assert Tied();
      LinkedWith(m);
      hide Linked, Tied;
    }

    /** The other modules are as they were, and the new one says what the world says of it. */
    twostate lemma LinkedWith(m: Module)
      requires old(Tied()) && old(Linked()) && Tied() && m !in old(made) && m.filename !in old(modules)
      requires unchanged(m) && unchanged(old(made)) && m.children == [] && !m.loaded
      requires made == old(made) + {m} && modules == old(modules)[m.filename := m]
      requires var w, file := old(world), m.filename;
        && world.exports == w.exports[file := m.exports] && world.children == w.children[file := []]
        && world.loaded == w.loaded && file !in w.loaded
      ensures Linked()
    {
      assert Names([]) == [] by { NoNames(); }
      hide Names;
      forall f | f in modules ensures modules[f] in made && Mirrors(modules[f], f) {
        assert f != m.filename ==> modules[f] == old(modules)[f] && old(Mirrors(modules[f], f));
      }
    }

    method NewModule(file: string, parent: string) returns (m: Module)
      requires Good() && file in lib.files && file !in cache && !IsJson(file)
      modifies this, made
      ensures Good() && fresh(m) && made == old(made) + {m} && modules == old(modules)[file := m] && m.filename == file
      ensures world == CommonJs.Construct(old(world), file, parent)
    {
      hide Valid, TruthyExports, Linked;
      m := new Module(file, Object(next));
      if parent in modules {
        AddChild(parent, m);
      }
      Register(m);
    }

    method NewObject() returns (v: Value)
      requires Good()
      modifies this`next, this`world
      ensures Good() && v == Object(old(world).next) && world == old(world).(next := old(world).next + 1)
    {
      ghost var w := world;
      NextKeeps(lib, w);
      hide Valid, TruthyExports;
      v := Object(next);
      next := next + 1;
      world := w.(next := w.next + 1);
      forall f | f in modules ensures modules[f] in made && Mirrors(modules[f], f) {
      }
      assert Tied() && Linked();
      hide Linked, Mirrors, Tied;
    }

    ghost method StartBody(before: World, file: string)
      requires Good() && Valid(lib, before) && Grows(before, world) && file in world.cache && file !in before.cache
      requires world.runs == before.runs
      modifies this`world
      ensures Good() && world == Start(old(world), file)
    {
      StartKeeps(lib, before, world, file);
      hide Valid, TruthyExports, Grows;
      world := Start(world, file);
      forall f | f in modules ensures modules[f] in made && Mirrors(modules[f], f) {
      }
      assert Tied() && Linked();
      hide Linked, Mirrors, Tied;
    }

    method MarkLoaded(m: Module)
      requires Good() && m.filename in modules && modules[m.filename] == m
      modifies this`world, m`loaded
      ensures Good() && world == old(world).(loaded := old(world).loaded + {m.filename})
      ensures m.exports == world.exports[m.filename]
    {
      LoadedKeeps(lib, world, m.filename);
      hide Valid, TruthyExports;
      m.loaded := true;
      world := world.(loaded := world.loaded + {m.filename});
      forall f | f in modules ensures modules[f] in made && Mirrors(modules[f], f) {
        assert f != m.filename ==> modules[f].filename != m.filename;
      }
      assert Tied() && Linked();
      hide Linked, Mirrors, Tied;
    }

    method ResolveAsFile(id: string, root: string) returns (file: Option<string>)
      ensures var f := Paths.Canonical(root + ("/" + id)); file == if f in lib.files then Some(f) else None
    {
      var canonical := Paths.CanonicalPath(root + ("/" + id));
      file := if canonical in lib.files then Some(canonical) else None;
    }

    method Require(id: string, parent: string) returns (r: Result)
      requires Good()
      modifies this, made
      ensures Good() && fresh(made - old(made)) && old(made) <= made && Sub(old(modules), modules)
      ensures EvalRequire(lib, id, parent, old(world)) == AsOutcome(r, world)
      decreases Unloaded(lib, world), 2, 0
    {
      hide EvalLoad, Unloaded, TruthyExports, Valid, Grows, Linked, Paths.FindRoot, Paths.Canonical;
      var root := Paths.FindRoot(parent);
      var file := ResolveAsFile(id, root);
      if file.None? {
        return Err;
      }
      if file.value in cache && Truthy(cache[file.value]) {
        return Ok(cache[file.value]);
      }
      NotLoadedYet(lib, world, file.value);
      if IsJson(file.value) {
        if !lib.json(file.value) {
          return Err;
        }
        var parsed := NewObject();
        r := Ok(parsed);
      } else {
        r := LoadModule(file.value, parent);
      }
    }

    method LoadModule(file: string, parent: string) returns (r: Result)
      requires Good() && file in lib.files && file !in cache && !IsJson(file)
      modifies this, made
      ensures Good() && fresh(made - old(made)) && old(made) <= made && Sub(old(modules), modules)
      ensures EvalLoad(lib, file, parent, old(world)) == AsOutcome(r, world)
      decreases Unloaded(lib, world), 1, 0
    {
      hide EvalBody, Unloaded, TruthyExports, Construct, Valid, Grows, Linked;
      ghost var w := world;
      ConstructKeeps(lib, w, file, parent);
      NotLoadedYet(lib, w, file);
      var m := NewModule(file, parent);
      var script := lib.script(file);
      if script.None? {
        return Err;
      }
      StartBody(w, file);
      var ok := RunBody(file, script.value);
      if !ok {
        return Err;
      }
      MarkLoaded(m);
      r := Ok(m.exports);
    }

    method RunBody(file: string, script: Script) returns (ok: bool)
      requires Good() && lib.script(file) == Some(script)
      modifies this, made
      ensures Good() && fresh(made - old(made)) && old(made) <= made && Sub(old(modules), modules)
      ensures EvalBody(lib, file, script, [], old(world)) == AsOutcome(if ok then Ok(Falsy) else Err, world)
      decreases Unloaded(lib, world), 3, 0
    {
      hide EvalBody, EvalRequire, Unloaded, Assign, Valid, Grows, Linked;
      ghost var whole := EvalBody(lib, file, script, [], world);
      var replies: seq<Reply> := [];
      while |replies| < script.bound
        invariant Good() && fresh(made - old(made)) && old(made) <= made && Sub(old(modules), modules)
        invariant Unloaded(lib, world) <= old(Unloaded(lib, world))
        invariant EvalBody(lib, file, script, replies, world) == whole
        decreases script.bound - |replies|
      {
        BodyStep(lib, file, script, replies, world);
        match script.next(replies) {
          case End => return true;
          case Throw => return false;
          case Require(id, from, caught) =>
            var r := Require(id, from);
            if r.Err? && !caught {
              return false;
            }
            replies := replies + [if r.Ok? then Got(r.value) else Raised];
          case SetExports(target, v) =>
            assert Truthy(lib.script(file).value.next(replies).v);
            if target in modules {
              SetExports(target, v);
            }
            replies := replies + [Noted];
        }
      }
      BodyDone(lib, file, script, replies, world);
      ok := true;
    }
  }

  lemma NotLoadedYet(lib: Library, w: World, file: string)
    requires Valid(lib, w)
    ensures file in w.cache ==> Truthy(w.cache[file])
    ensures file !in w.cache ==> file !in w.loaded && file !in w.exports
  {
  }

  /** The world with a new module of `file`, before it is anybody's child. */
  function Registered(w: World, file: string): World {
    w.(cache := w.cache[file := Object(w.next)], exports := w.exports[file := Object(w.next)],
       children := w.children[file := []], next := w.next + 1)
  }

  lemma RegisteredKeeps(lib: Library, w: World, file: string)
    requires Valid(lib, w) && file in lib.files && file !in w.cache && !IsJson(file)
    ensures var w' := Registered(w, file);
      && Valid(lib, w') && file !in w.loaded && w'.loaded == w.loaded && w'.next == w.next + 1
      && w'.cache == w.cache[file := Object(w.next)] && w'.exports == w.exports[file := Object(w.next)]
      && w'.children == w.children[file := []]
      && w'.exports.Keys == w'.children.Keys == w.exports.Keys + {file}
  {
    assert Registered(w, file).children.Keys == w.children.Keys + {file};
    AddedKeeps(lib, w, file, Registered(w, file));
  }

  lemma NextKeeps(lib: Library, w: World)
    requires Valid(lib, w)
    ensures Valid(lib, w.(next := w.next + 1))
  {
  }

  lemma AssignFields(lib: Library, w: World, file: string, v: Value)
    requires Valid(lib, w) && file in w.exports && Truthy(v)
    ensures var w' := Assign(w, file, v);
      && Valid(lib, w')
      && w'.cache == w.cache[file := v] && w'.exports.Keys == w.exports.Keys && w'.children == w.children
      && w'.loaded == w.loaded && w'.next == w.next
      && forall f :: f in w.exports ==> w'.exports[f] == if f == file then v else w.exports[f]
  {
    AssignKeeps(lib, w, file, v);
  }

  lemma LoadedKeeps(lib: Library, w: World, file: string)
    requires Valid(lib, w) && file in w.cache
    ensures Valid(lib, w.(loaded := w.loaded + {file}))
  {
  }

  lemma ChildKeeps(lib: Library, w: World, parent: string, child: string)
    requires Valid(lib, w) && parent in w.children
    ensures Valid(lib, w.(children := w.children[parent := w.children[parent] + [child]]))
  {
    assert w.children[parent := w.children[parent] + [child]].Keys == w.children.Keys;
  }
}
