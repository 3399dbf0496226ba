/** How `require` turns an id and the requiring module into a file name. */
module CommonJsPaths {
  import opened Seqs

  // -------------------------------------------------------------- split and join

  function Split(s: string): (parts: seq<string>)
    ensures |parts| >= 1
    ensures forall p :: p in parts ==> '/' !in p
  {
    if s == "" then [""]
    else
      var rest := Split(s[1..]);
      if s[0] == '/' then [""] + rest else [[s[0]] + rest[0]] + rest[1..]
  }

  function Join(parts: seq<string>): string {
    if parts == [] then "" else if |parts| == 1 then parts[0] else parts[0] + ("/" + Join(parts[1..]))
  }

  lemma {:induction false} SplitConcat(a: string, b: string)
    ensures Split(a + ("/" + b)) == Split(a) + Split(b)
    decreases |a|
  {
    var s := a + ("/" + b);
    if a == "" {
      assert s == "/" + b && s[1..] == b;
    } else {
      assert s[0] == a[0] && s[1..] == a[1..] + ("/" + b);
      SplitConcat(a[1..], b);
      var first, rest := Split(a[1..]), Split(b);
      if a[0] == '/' {
        Assoc([""], first, rest);
      } else {
        assert (first + rest)[0] == first[0] && (first + rest)[1..] == first[1..] + rest;
        Assoc([[a[0]] + first[0]], first[1..], rest);
      }
    }
  }

  lemma {:induction false} SplitPlain(s: string)
    requires '/' !in s
    ensures Split(s) == [s]
  {
    if s != "" {
      SplitPlain(s[1..]);
      assert [s[0]] + s[1..] == s;
    }
  }

  lemma {:induction false} SplitJoin(parts: seq<string>)
    requires parts != [] && forall p :: p in parts ==> '/' !in p
    ensures Split(Join(parts)) == parts
    decreases |parts|
  {
    SplitPlain(parts[0]);
    if |parts| > 1 {
      SplitConcat(parts[0], Join(parts[1..]));
      SplitJoin(parts[1..]);
      assert [parts[0]] + parts[1..] == parts;
    }
  }

  // ---------------------------------------------------------------- canonical paths

  predicate Up(part: string) { ".." <= part }

  /** Dropped: an empty part, and any other part that starts with a dot. */
  predicate Dropped(part: string) { part == "" || (part[0] == '.' && !Up(part)) }

  predicate Plain(part: string) { !Up(part) && !Dropped(part) }

  predicate Clean(parts: seq<string>) { forall p :: p in parts ==> Plain(p) }

  /** Going up from an empty stack does nothing. */
  function Walk(stack: seq<string>, parts: seq<string>): seq<string>
    decreases |parts|
  {
    if parts == [] then stack
    else if Up(parts[0]) then Walk(if stack == [] then [] else stack[..|stack| - 1], parts[1..])
    else if Dropped(parts[0]) then Walk(stack, parts[1..])
    else Walk(stack + [parts[0]], parts[1..])
  }

  lemma {:induction false} WalkIsClean(stack: seq<string>, parts: seq<string>)
    requires Clean(stack)
    ensures Clean(Walk(stack, parts))
    ensures (forall p :: p in stack || p in parts ==> '/' !in p) ==> forall p :: p in Walk(stack, parts) ==> '/' !in p
    decreases |parts|
  {
    if parts != [] {
      if Up(parts[0]) {
        WalkIsClean(if stack == [] then [] else stack[..|stack| - 1], parts[1..]);
      } else if Dropped(parts[0]) {
        WalkIsClean(stack, parts[1..]);
      } else {
        WalkIsClean(stack + [parts[0]], parts[1..]);
      }
    }
  }

  lemma {:induction false} WalkOfClean(stack: seq<string>, parts: seq<string>)
    requires Clean(parts)
    ensures Walk(stack, parts) == stack + parts
    decreases |parts|
  {
    if parts == [] {
      assert stack + parts == stack;
    } else {
      assert Plain(parts[0]);
      WalkOfClean(stack + [parts[0]], parts[1..]);
      assert stack + parts == stack + [parts[0]] + parts[1..];
    }
  }

  lemma {:induction false} WalkAppend(stack: seq<string>, a: seq<string>, b: seq<string>)
    ensures Walk(stack, a + b) == Walk(Walk(stack, a), b)
    decreases |a|
  {
    if a == [] {
      assert a + b == b;
    } else {
      assert (a + b)[0] == a[0] && (a + b)[1..] == a[1..] + b;
      if Up(a[0]) {
        WalkAppend(if stack == [] then [] else stack[..|stack| - 1], a[1..], b);
      } else if Dropped(a[0]) {
        WalkAppend(stack, a[1..], b);
      } else {
        WalkAppend(stack + [a[0]], a[1..], b);
      }
    }
  }

  /** One rewriting of a list of parts: a name and the way back up, a dropped part, or going up from the root. */
  datatype Rewrite = Cancel(i: nat) | Drop(i: nat) | AtRoot

  function Apply(parts: seq<string>, r: Rewrite): (parts': seq<string>)
    requires Applies(parts, r)
    ensures |parts'| < |parts|
  {
    match r
    case Cancel(i) => parts[..i] + parts[i + 2..]
    case Drop(i) => parts[..i] + parts[i + 1..]
    case AtRoot => parts[1..]
  }

  predicate Applies(parts: seq<string>, r: Rewrite) {
    match r
    case Cancel(i) => i + 1 < |parts| && Plain(parts[i]) && Up(parts[i + 1])
    case Drop(i) => i < |parts| && Dropped(parts[i])
    case AtRoot => parts != [] && Up(parts[0])
  }

  lemma RewriteKeepsWalk(parts: seq<string>, r: Rewrite)
    requires Applies(parts, r)
    ensures Walk([], Apply(parts, r)) == Walk([], parts)
  {
    match r
    case AtRoot =>
    case Drop(i) =>
      assert parts == parts[..i] + parts[i..] && parts[i..][1..] == parts[i + 1..];
      WalkAppend([], parts[..i], parts[i..]);
      WalkAppend([], parts[..i], parts[i + 1..]);
    case Cancel(i) =>
      assert parts == parts[..i] + parts[i..] && parts[i..][1..] == parts[i + 1..]
          && parts[i + 1..][1..] == parts[i + 2..];
      WalkAppend([], parts[..i], parts[i..]);
      WalkAppend([], parts[..i], parts[i + 2..]);
      var stack := Walk([], parts[..i]);
      assert (stack + [parts[i]])[..|stack|] == stack;
      assert Walk(stack, parts[i..]) == Walk(stack + [parts[i]], parts[i + 1..]);
      assert Walk(stack + [parts[i]], parts[i + 1..]) == Walk(stack, parts[i + 2..]);
  }

  function Rewritten(parts: seq<string>, rs: seq<Rewrite>): seq<string>
    requires AllApply(parts, rs)
    decreases |rs|
  {
    if rs == [] then parts else Rewritten(Apply(parts, rs[0]), rs[1..])
  }

  predicate AllApply(parts: seq<string>, rs: seq<Rewrite>)
    decreases |rs|
  {
    rs != [] ==> Applies(parts, rs[0]) && AllApply(Apply(parts, rs[0]), rs[1..])
  }

  /** No rewriting applies exactly to the lists of plain names. */
  lemma IrreducibleIsClean(parts: seq<string>)
    ensures (forall r :: !Applies(parts, r)) <==> Clean(parts)
  {
    if forall r :: !Applies(parts, r) {
      IrreducibleFrom(parts, |parts|);
    }
    if Clean(parts) {
      forall r ensures !Applies(parts, r) {
        match r
        case Cancel(i) => assert i + 1 < |parts| ==> parts[i + 1] in parts;
        case Drop(i) => assert i < |parts| ==> parts[i] in parts;
        case AtRoot => assert parts != [] ==> parts[0] in parts;
      }
    }
  }

  lemma {:induction false} IrreducibleFrom(parts: seq<string>, n: nat)
    requires n <= |parts| && forall r :: !Applies(parts, r)
    ensures forall i :: 0 <= i < n ==> Plain(parts[i])
    decreases n
  {
    if n > 0 {
      IrreducibleFrom(parts, n - 1);
      assert !Applies(parts, Drop(n - 1));
      if n == 1 {
        assert !Applies(parts, AtRoot);
      } else {
        assert !Applies(parts, Cancel(n - 2));
      }
    }
  }

  /** However a path is rewritten, it ends in the one list of plain names that walking it gives. */
  lemma {:induction false} NormalFormIsUnique(parts: seq<string>, rs: seq<Rewrite>)
    requires AllApply(parts, rs) && Clean(Rewritten(parts, rs))
    ensures Rewritten(parts, rs) == Walk([], parts)
    decreases |rs|
  {
    if rs == [] {
      WalkOfClean([], parts);
      assert [] + parts == parts;
    } else {
      NormalFormIsUnique(Apply(parts, rs[0]), rs[1..]);
      RewriteKeepsWalk(parts, rs[0]);
    }
  }

  // -------------------------------------------------------------------- resolution

  function NormalizeName(name: string): string {
    if EndsWith(name, ".js") || EndsWith(name, ".json") then name else name + ".js"
  }

  function Canonical(path: string): string { NormalizeName(Join(Walk([], Split(path)))) }

  method CanonicalPath(path: string) returns (canonical: string)
    ensures canonical == Canonical(path)
  {
    var parts := Split(path);
    var pathParts: seq<string> := [];
    var i := 0;
    while i < |parts|
      invariant i <= |parts| && Walk(pathParts, parts[i..]) == Walk([], parts)
    {
      assert parts[i..][0] == parts[i] && parts[i..][1..] == parts[i + 1..];
      if Up(parts[i]) {
        if pathParts != [] {
          pathParts := pathParts[..|pathParts| - 1];
        }
      } else if !Dropped(parts[i]) {
        pathParts := pathParts + [parts[i]];
      }
      i := i + 1;
    }
    canonical := NormalizeName(Join(pathParts));
  }

  /** The directory a module requires from; without a module, the root. */
  function FindRoot(parent: string): string {
    if parent == "" then "/"
    else
      var parts := Split(parent);
      Join(parts[..|parts| - 1])
  }

  function Target(id: string, parent: string): string { Canonical(FindRoot(parent) + ("/" + id)) }

  /**
   * From a module in a directory of plain names, an id is walked from that directory, a leading slash or
   * not; without a module, from the root.
   */
  lemma TargetIsRelative(id: string, dir: seq<string>, name: string)
    requires Clean(dir) && (forall p :: p in dir ==> '/' !in p) && '/' !in name && (dir != [] || name != "")
    ensures Target(id, Join(dir + [name])) == NormalizeName(Join(Walk(dir, Split(id))))
    ensures Target(id, "") == NormalizeName(Join(Walk([], Split(id))))
    ensures Target("/" + id, Join(dir + [name])) == Target(id, Join(dir + [name]))
  {
    FromDirectory(id, dir, name);
    FromDirectory("/" + id, dir, name);
    SplitConcat("", id);
    assert "" + ("/" + id) == "/" + id;
    assert Split("/" + id) == [""] + Split(id);
    assert ([""] + Split(id))[1..] == Split(id);
    assert Walk(dir, Split("/" + id)) == Walk(dir, Split(id));
    SplitConcat("/", id);
    assert Split("/") == ["", ""];
    WalkAppend([], ["", ""], Split(id));
    assert Walk([], ["", ""]) == [];
  }

  lemma FromDirectory(id: string, dir: seq<string>, name: string)
    requires Clean(dir) && (forall p :: p in dir ==> '/' !in p) && '/' !in name && (dir != [] || name != "")
    ensures Target(id, Join(dir + [name])) == NormalizeName(Join(Walk(dir, Split(id))))
  {
    var parent := Join(dir + [name]);
    SplitJoin(dir + [name]);
    assert (dir + [name])[..|dir|] == dir;
    assert Split("") == [""];
    assert dir + [name] != [""] by {
      assert (dir + [name])[|dir|] == name;
    }
    assert parent != "";
    var root := FindRoot(parent);
    assert root == Join(dir);
    SplitConcat(root, id);
    WalkAppend([], Split(root), Split(id));
    if dir == [] {
      assert Split(root) == [""] && Walk([], [""]) == [];
    } else {
      SplitJoin(dir);
      WalkOfClean([], dir);
      assert [] + dir == dir;
    }
  }

  /** A canonical path cannot leave the root: none of its parts is empty or starts with a dot. */
  lemma TargetStaysInside(path: string)
    ensures Walk([], Split(path)) != [] ==> Clean(Split(Canonical(path)))
    ensures Walk([], Split(path)) == [] ==> Canonical(path) == ".js"
  {
    var parts := Walk([], Split(path));
    WalkIsClean([], Split(path));
    if parts != [] {
      SplitJoin(parts);
      NormalizedParts(parts);
    }
  }

  lemma NormalizedParts(parts: seq<string>)
    requires parts != [] && Clean(parts) && forall p :: p in parts ==> '/' !in p
    ensures Clean(Split(NormalizeName(Join(parts))))
    ensures EndsWith(NormalizeName(Join(parts)), ".js") || EndsWith(NormalizeName(Join(parts)), ".json")
  {
    var name := Join(parts);
    SplitJoin(parts);
    if NormalizeName(name) != name {
      var last := parts[|parts| - 1];
      var longer := parts[..|parts| - 1] + [last + ".js"];
      JoinLonger(parts, ".js");
      forall p | p in longer ensures Plain(p) && '/' !in p {
        if p !in parts {
          PlainLonger(last);
        }
      }
      SplitJoin(longer);
    }
  }

  lemma PlainLonger(part: string)
    requires Plain(part) && '/' !in part
    ensures Plain(part + ".js") && '/' !in part + ".js"
  {
    var longer := part + ".js";
    assert longer[0] == part[0] && longer[1] == if |part| > 1 then part[1] else '.';
  }

  lemma {:induction false} JoinLonger(parts: seq<string>, suffix: string)
    requires parts != []
    ensures Join(parts) + suffix == Join(parts[..|parts| - 1] + [parts[|parts| - 1] + suffix])
    decreases |parts|
  {
    var longer := parts[..|parts| - 1] + [parts[|parts| - 1] + suffix];
    if |parts| > 1 {
      JoinLonger(parts[1..], suffix);
      assert longer[1..] == parts[1..][..|parts| - 2] + [parts[|parts| - 1] + suffix];
      assert longer[0] == parts[0];
      assert parts[0] + ("/" + Join(parts[1..])) + suffix == parts[0] + ("/" + (Join(parts[1..]) + suffix));
    }
  }

  /** A path of plain names is resolved to itself when it ends in ".js" or ".json", and otherwise ".js" is added. */
  lemma PlainPathsAreFiles(parts: seq<string>)
    requires parts != [] && Clean(parts) && forall p :: p in parts ==> '/' !in p
    ensures var path := Join(parts);
      Canonical(path) == if EndsWith(path, ".js") || EndsWith(path, ".json") then path else path + ".js"
  {
    SplitJoin(parts);
    WalkOfClean([], parts);
    assert [] + parts == parts;
  }

  /** Resolving a canonical path again changes nothing. */
  lemma CanonicalTwice(path: string)
    ensures Canonical(Canonical(path)) == Canonical(path)
  {
    var parts := Walk([], Split(path));
    if parts == [] {
      assert Canonical(path) == ".js";
      SplitPlain(".js");
      assert Dropped(".js") && [".js"][1..] == [];
      assert Walk([], [".js"]) == [];
    } else {
      WalkIsClean([], Split(path));
      NormalizedParts(parts);
      var again := Split(Canonical(path));
      WalkOfClean([], again);
      assert [] + again == again;
      JoinSplit(Canonical(path));
    }
  }

  lemma {:induction false} JoinSplit(s: string)
    ensures Join(Split(s)) == s
  {
    if s != "" {
      JoinSplit(s[1..]);
      var rest := Split(s[1..]);
      if s[0] == '/' {
        assert Join([""] + rest) == "" + ("/" + Join(rest)) by { assert ([""] + rest)[1..] == rest; }
        assert "" + ("/" + s[1..]) == s;
      } else {
        var parts := [[s[0]] + rest[0]] + rest[1..];
        assert parts[1..] == rest[1..];
        if |rest| > 1 {
          assert [s[0]] + rest[0] + ("/" + Join(rest[1..])) == [s[0]] + (rest[0] + ("/" + Join(rest[1..])));
        }
        assert [s[0]] + s[1..] == s;
      }
    }
  }
}
