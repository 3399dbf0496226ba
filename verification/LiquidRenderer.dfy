/**
 * The renderer as it runs: builders, a mutable context, and parsed templates kept in the cache. Whatever
 * the cache has dropped or the collector has cleared, it renders what parsing every file afresh would.
 */
module LiquidRenderer {
  import opened LiquidSyntax
  import opened LiquidEval
  import opened TemplateCache
  import opened TemplateKeys
  import opened Options

  datatype Result = Ok(value: Value) | Err(error: Error)

  function AsOutcome(r: Result, st: State): Outcome {
    match r
    case Ok(v) => Done(v, st)
    case Err(e) => Thrown(e, st)
  }

  class LimitedBuilder {
    var builder: Option<string>

    function Content(): string
      reads this
    {
      if builder.None? then "" else builder.value
    }

    constructor ()
      ensures Content() == ""
    {
      builder := None;
    }

    /** Checks the length reached so far, not the one to come. */
    method Append(env: Env, s: string) returns (ok: bool)
      modifies this
      ensures ok == !Full(env, old(Content()))
      ensures Content() == if ok then old(Content()) + s else old(Content())
    {
      if builder.None? {
        builder := Some("");
      }
      ok := !(env.limit > 0 && |builder.value| >= env.limit);
      if ok {
        builder := Some(builder.value + s);
      }
    }

    method AppendPieces(env: Env, pieces: seq<string>) returns (ok: bool)
      modifies this
      ensures AppendAll(env, old(Content()), pieces) == Appended(Content(), ok)
    {
      var i := 0;
      while i < |pieces|
        invariant i <= |pieces|
        invariant AppendAll(env, Content(), pieces[i..]) == AppendAll(env, old(Content()), pieces)
      {
        assert pieces[i..][0] == pieces[i] && pieces[i..][1..] == pieces[i + 1..];
        ok := Append(env, pieces[i]);
        if !ok {
          return;
        }
        i := i + 1;
      }
      ok := true;
    }
  }

  class Context {
    var vars: map<string, Value>
    var loops: seq<Loop>
    var depth: Option<int>
    ghost var peak: int
    ghost var longest: nat

    ghost function Now(): State
      reads this
    {
      State(vars, loops, depth, peak, longest)
    }

    method Put(key: string, v: Value)
      modifies this
      ensures Now() == LiquidSyntax.Put(old(Now()), key, v)
    {
      vars := vars[key := v];
    }

    /** The loop variable and the `forloop` map of a turn. */
    method StartTurn(id: Name, name: Option<string>, ghost source: Source, length: int, k: nat, n: nat,
                     first: bool, last: bool, item: Value)
      requires k < |loops|
      requires length == source.Length() && first == (source.At(n) == source.At(0)) && last == source.Last(n)
      modifies this
      ensures Now() == OpenTurn(old(Now()), id, name, source, k, n, item) && |loops| == |old(loops)|
      ensures Depth(Now()) == Depth(old(Now()))
    {
      vars := vars[id := item];
      loops := loops[k := Turn(name, length, n, first, last)];
    }

    method Evaluate(env: Env, e: Expr) returns (v: Option<Value>)
      ensures v == EvalExpr(env, e, Now())
    {
      match e {
        case Atom(value) => v := Some(value);
        case Computed(code) => v := env.eval(code, vars, loops, depth);
      }
    }

    method Number(env: Env, e: Expr) returns (n: Option<int>)
      ensures n == EvalNumber(env, e, Now())
    {
      var v := Evaluate(env, e);
      if v.None? {
        return None;
      }
      n := env.number(v.value);
      if n.Some? {
        n := Some(Wrap(n.value));
      }
    }

    /** Offset and limit of a loop. */
    method Attributes(env: Env, attributes: seq<Attribute>) returns (bounds: Option<(int, int)>)
      ensures bounds == EvalAttributes(env, attributes, 0, MAX_INT, Now())
    {
      var offset, limit := 0, MAX_INT;
      var i := 0;
      while i < |attributes|
        invariant i <= |attributes|
        invariant EvalAttributes(env, attributes[i..], offset, limit, Now())
            == EvalAttributes(env, attributes, 0, MAX_INT, Now())
      {
        assert attributes[i..][0] == attributes[i] && attributes[i..][1..] == attributes[i + 1..];
        var v := Evaluate(env, attributes[i].expr);
        if v.None? {
          return None;
        }
        var n := env.number(v.value);
        if n.Some? && attributes[i].key == "offset" {
          offset := Wrap(n.value);
        } else if n.Some? && attributes[i].key == "limit" {
          limit := Wrap(n.value);
        }
        i := i + 1;
      }
      bounds := Some((offset, limit));
    }
  }

  // ------------------------------------------------------ one step of the evaluator

  lemma BodyStep(env: Env, place: Place, nodes: seq<Node>, i: nat, text: string, st: State)
    requires i < |nodes|
    ensures EvalBody(env, place, nodes[i..], text, st)
         == (var r := Eval(env, nodes[i], st);
             if r.Thrown? then Collected(text, Raised(r.error), r.st)
             else
               var t := Collect(env, place, r.value, text);
               if t.ending.Ran? then EvalBody(env, place, nodes[i + 1..], t.text, r.st)
               else Collected(t.text, t.ending, r.st))
  {
    hide Eval, Collect;
    assert nodes[i..][0] == nodes[i] && nodes[i..][1..] == nodes[i + 1..];
  }

  lemma BodyEnd(env: Env, place: Place, nodes: seq<Node>, text: string, st: State)
    ensures EvalBody(env, place, nodes[|nodes|..], text, st) == Collected(text, Ran, st)
    ensures nodes[0..] == nodes
  {
  }

  lemma IfStep(env: Env, branches: seq<Branch>, negated: bool, i: nat, st: State)
    requires i < |branches|
    ensures EvalIf(env, branches[i..], negated, st)
         == (var v := EvalExpr(env, branches[i].condition, st);
             if v.None? then Thrown(Failed, st)
             else if Truthy(v.value) != negated then EvalBlock(env, branches[i].body, st)
             else EvalIf(env, branches[i + 1..], negated, st))
  {
    hide EvalBlock, EvalExpr;
    assert branches[i..][0] == branches[i] && branches[i..][1..] == branches[i + 1..];
  }

  lemma TermsStep(env: Env, subject: Value, parts: seq<Part>, hit: bool, i: nat, st: State)
    requires i < |parts|
    ensures EvalTerms(env, subject, parts[i..], hit, st)
         == (match parts[i]
             case Term(e) =>
               var v := EvalExpr(env, e, st);
               if v.None? then Thrown(Failed, st)
               else EvalTerms(env, subject, parts[i + 1..], hit || env.equal(subject, v.value), st)
             case Body(nodes) =>
               if hit then EvalBlock(env, nodes, st) else EvalCase(env, subject, parts[i + 1..], st))
  {
    hide EvalBlock, EvalExpr, EvalCase;
    assert parts[i..][0] == parts[i] && parts[i..][1..] == parts[i + 1..];
  }

  lemma CaseStep(env: Env, subject: Value, parts: seq<Part>, i: nat, st: State)
    requires i <= |parts|
    ensures EvalCase(env, subject, parts[i..], st)
         == if i == |parts| then Done(Nil, st)
            else if i == |parts| - 1 && parts[i].Body? then EvalBlock(env, parts[i].nodes, st)
            else EvalTerms(env, subject, parts[i..], false, st)
    ensures parts[0..] == parts
  {
    hide EvalBlock, EvalTerms;
    if i < |parts| {
      assert parts[i..][0] == parts[i];
    }
  }

  // ------------------------------------------------------------------- the renderer

  class Renderer {
    ghost const services: map<string, Env>
    const prepare: string -> string
    const cache: Cache

    ghost predicate Valid()
      reads this, cache
    {
      Services(services) && cache.Valid() && Consistent(services, prepare, cache.entries)
    }

    ghost predicate Serves(hash: string, env: Env) { hash in services && services[hash] == env }

    constructor (ghost services: map<string, Env>, prepare: string -> string)
      requires Services(services)
      ensures Valid() && this.services == services && this.prepare == prepare && fresh(cache)
    {
      this.services, this.prepare := services, prepare;
      cache := new Cache();
    }

    /** What a key of the cache gives, after the collector has had its way with it. */
    method CachedTemplate(key: string) returns (ref: SoftReference)
      requires Valid()
      modifies cache
      ensures Valid() && (ref.Some? ==> Live(cache.entries, key) && cache.entries[key] == ref)
    {
      hide Consistent;
      ghost var before := cache.entries;
      cache.ClearSome();
      ref := cache.Get(key);
      ConsistentWhenLess(services, prepare, before, cache.entries);
    }

    method RenderNode(hash: string, env: Env, node: Node, context: Context) returns (r: Result)
      requires Valid() && Serves(hash, env)
      modifies cache, context
      ensures Valid() && Eval(env, node, old(context.Now())) == AsOutcome(r, context.Now())
      decreases MAX_DEPTH - Depth(context.Now()), node, 3
    {
      hide Consistent, EvalBlock, EvalIf, EvalCase, EvalFor, EvalInclude, EvalExpr, Kept, Width;
      match node {
        case Leaf(e) =>
          var v := context.Evaluate(env, e);
          if v.None? {
            return Err(Failed);
          }
          context.longest := Max(context.longest, Width(env, v.value));
          r := Ok(v.value);
        case Block(nodes) =>
          r := RenderBlock(hash, env, nodes, context);
        case If(branches, negated) =>
          r := RenderIf(hash, env, branches, negated, context);
        case Case(subject, parts) =>
          var v := context.Evaluate(env, subject);
          if v.None? {
            return Err(Failed);
          }
          r := RenderCase(hash, env, v.value, parts, context);
        case ForArray(_, _, _, _, _) =>
          r := RenderFor(hash, env, node, context);
        case ForRange(_, _, _, _, _) =>
          r := RenderFor(hash, env, node, context);
        case Include(name, with) =>
          r := RenderInclude(hash, env, name, with, context);
        case Assign(id, e) =>
          var v := context.Evaluate(env, e);
          if v.None? {
            return Err(Failed);
          }
          context.vars := context.vars[id := v.value];
          r := Ok(Text(""));
        case Capture(id, body) =>
          r := RenderBlock(hash, env, body, context);
          if r.Ok? {
            context.vars := context.vars[id := r.value];
            r := Ok(Nil);
          }
      }
    }

    method RenderBlock(hash: string, env: Env, nodes: seq<Node>, context: Context) returns (r: Result)
      requires Valid() && Serves(hash, env)
      modifies cache, context
      ensures Valid() && EvalBlock(env, nodes, old(context.Now())) == AsOutcome(r, context.Now())
      decreases MAX_DEPTH - Depth(context.Now()), nodes, 1
    {
      hide Consistent, EvalBody, Kept;
      var builder := new LimitedBuilder();
      var ending := RenderBody(hash, env, InBlock, nodes, builder, context);
      match ending {
        case Ran => r := Ok(Text(builder.Content()));
        case Stopped(statement) => r := Ok(statement);
        case Raised(error) => r := Err(error);
      }
    }

    /** The loop over children that blocks, array loops and range loops each have, printing into `builder`. */
    method RenderBody(hash: string, env: Env, place: Place, nodes: seq<Node>, builder: LimitedBuilder, context: Context)
        returns (ending: Ending)
      requires Valid() && Serves(hash, env)
      modifies cache, context, builder
      ensures Valid()
      ensures EvalBody(env, place, nodes, old(builder.Content()), old(context.Now()))
          == Collected(builder.Content(), ending, context.Now())
      decreases MAX_DEPTH - Depth(context.Now()), nodes, 0
    {
      hide Consistent, EvalBody, Eval, Collect;
      ghost var whole := EvalBody(env, place, nodes, builder.Content(), context.Now());
      var i := 0;
      BodyEnd(env, place, nodes, builder.Content(), context.Now());
      while i < |nodes|
        invariant i <= |nodes| && Valid() && Depth(context.Now()) == old(Depth(context.Now()))
        invariant EvalBody(env, place, nodes[i..], builder.Content(), context.Now()) == whole
      {
        BodyStep(env, place, nodes, i, builder.Content(), context.Now());
        var r := RenderNode(hash, env, nodes[i], context);
        if r.Err? {
          return Raised(r.error);
        }
        ending := CollectInto(env, place, r.value, builder);
        if !ending.Ran? {
          return;
        }
        i := i + 1;
      }
      BodyEnd(env, place, nodes, builder.Content(), context.Now());
      ending := Ran;
    }

    method CollectInto(env: Env, place: Place, v: Value, builder: LimitedBuilder) returns (ending: Ending)
      modifies builder
      ensures Collect(env, place, v, old(builder.Content())) == Printed(builder.Content(), ending)
    {
      if v.Nil? && !place.InArray? {
        return Ran;
      }
      if IsStatement(v) {
        return Stopped(v);
      }
      var pieces := Pieces(env, place, v);
      if pieces.None? {
        return Raised(TooLong);
      }
      var ok := builder.AppendPieces(env, pieces.value);
      ending := if ok then Ran else Raised(TooLong);
    }

    method RenderIf(hash: string, env: Env, branches: seq<Branch>, negated: bool, context: Context) returns (r: Result)
      requires Valid() && Serves(hash, env)
      modifies cache, context
      ensures Valid() && EvalIf(env, branches, negated, old(context.Now())) == AsOutcome(r, context.Now())
      decreases MAX_DEPTH - Depth(context.Now()), branches, 0
    {
      hide Consistent, EvalIf, EvalBlock, EvalExpr, Kept;
      ghost var st := context.Now();
      var i := 0;
      assert branches[0..] == branches;
      while i < |branches|
        invariant i <= |branches| && Valid() && context.Now() == st
        invariant EvalIf(env, branches[i..], negated, st) == EvalIf(env, branches, negated, st)
      {
        IfStep(env, branches, negated, i, st);
        var v := context.Evaluate(env, branches[i].condition);
        if v.None? {
          return Err(Failed);
        }
        if Truthy(v.value) != negated {
          r := RenderBlock(hash, env, branches[i].body, context);
          return;
        }
        i := i + 1;
      }
      NoBranchLeft(env, negated, st);
      assert branches[i..] == [];
      r := Ok(if negated then Text("") else Nil);
    }

    method RenderCase(hash: string, env: Env, subject: Value, parts: seq<Part>, context: Context) returns (r: Result)
      requires Valid() && Serves(hash, env)
      modifies cache, context
      ensures Valid() && EvalCase(env, subject, parts, old(context.Now())) == AsOutcome(r, context.Now())
      decreases MAX_DEPTH - Depth(context.Now()), parts, 1
    {
      hide Consistent, EvalCase, EvalTerms, EvalBlock, EvalExpr, Kept;
      ghost var st := context.Now();
      ghost var whole := EvalCase(env, subject, parts, st);
      var i := 0;
      CaseStep(env, subject, parts, 0, st);
      while i < |parts|
        invariant i <= |parts| && Valid() && context.Now() == st
        invariant EvalCase(env, subject, parts[i..], st) == whole
      {
        CaseStep(env, subject, parts, i, st);
        if i == |parts| - 1 && parts[i].Body? {
          r := RenderBlock(hash, env, parts[i].nodes, context);
          return;
        }
        var hit := false;
        while i < |parts| && parts[i].Term?
          invariant i <= |parts| && Valid() && context.Now() == st
          invariant EvalTerms(env, subject, parts[i..], hit, st) == whole
        {
          TermsStep(env, subject, parts, hit, i, st);
          var v := context.Evaluate(env, parts[i].expr);
          if v.None? {
            return Err(Failed);
          }
          if env.equal(subject, v.value) {
            hit := true;
          }
          i := i + 1;
        }
        if i == |parts| {
          NoPartLeft(env, subject, parts, hit, st);
          return Err(Failed);
        }
        TermsStep(env, subject, parts, hit, i, st);
        if hit {
          r := RenderBlock(hash, env, parts[i].nodes, context);
          return;
        }
        i := i + 1;
      }
      CaseStep(env, subject, parts, i, st);
      r := Ok(Nil);
    }

    method RenderFor(hash: string, env: Env, node: Node, context: Context) returns (r: Result)
      requires Valid() && Serves(hash, env) && IsFor(node)
      modifies cache, context
      ensures Valid() && EvalFor(env, node, old(context.Now())) == AsOutcome(r, context.Now())
      decreases MAX_DEPTH - Depth(context.Now()), node, 2
    {
      hide Consistent, EvalForArray, EvalForRange, Kept;
      var outer := if FORLOOP in context.vars then context.vars[FORLOOP] else Nil;
      context.vars := context.vars[FORLOOP := LoopRef(|context.loops|)];
      context.loops := context.loops + [Fresh];
      if node.ForArray? {
        r := RenderArray(hash, env, node, context);
      } else {
        r := RenderRange(hash, env, node, context);
      }
      if r.Ok? {
        ghost var inner := context.vars;
        context.vars := context.vars - {FORLOOP};
        if outer != Nil {
          context.vars := context.vars[FORLOOP := outer];
          assert context.vars == inner[FORLOOP := outer];
        }
      }
    }

    method RenderArray(hash: string, env: Env, node: Node, context: Context) returns (r: Result)
      requires Valid() && Serves(hash, env) && node.ForArray? && |context.loops| > 0
      modifies cache, context
      ensures Valid() && EvalForArray(env, node, old(context.Now())) == AsOutcome(r, context.Now())
      decreases MAX_DEPTH - Depth(context.Now()), node, 1
    {
      hide Consistent, EvalTurns, EvalBlock, EvalExpr, EvalAttributes, Kept;
      var bounds := context.Attributes(env, node.attributes);
      var v := context.Evaluate(env, node.source);
      if bounds.None? || v.None? {
        return Err(Failed);
      }
      var entries := env.entries(v.value, context.loops);
      var items :=
        if entries.Some? then entries.value
        else if v.value.Nil? then []
        else if v.value.Array? || v.value.List? then v.value.items
        else [v.value];
      assert items == Elements(env, v.value, context.Now());
      if items == [] {
        if node.otherwise.NoElse? {
          return Ok(Nil);
        }
        r := RenderBlock(hash, env, node.otherwise.nodes, context);
        return;
      }
      var name := env.describe(node.source, context.vars, context.loops, context.depth);
      if name.None? {
        return Err(Failed);
      }
      var named := Some(node.id + "-" + name.value);
      var k := |context.loops| - 1;
      context.loops := context.loops[k := Named(named)];
      var builder := new LimitedBuilder();
      var ending := ArrayTurns(hash, env, node, named, items, bounds.value.0, bounds.value.1, k, builder, context);
      r := if ending.Raised? then Err(ending.error) else Ok(Text(builder.Content()));
    }

    /** The body of one turn, seeing its item and its `forloop`. */
    method RenderTurn(hash: string, env: Env, id: Name, name: Option<string>, body: seq<Node>, ghost source: Source,
                      place: Place, length: int, k: nat, n: nat, first: bool, last: bool, item: Value,
                      builder: LimitedBuilder, context: Context)
        returns (ending: Ending)
      requires Valid() && Serves(hash, env) && k < |context.loops| && place == source.Collector()
      requires length == source.Length() && first == (source.At(n) == source.At(0)) && last == source.Last(n)
      modifies cache, context, builder
      ensures Valid() && k < |context.loops| && Depth(context.Now()) == old(Depth(context.Now()))
      ensures EvalBody(env, place, body, old(builder.Content()),
          OpenTurn(old(context.Now()), id, name, source, k, n, item))
           == Collected(builder.Content(), ending, context.Now())
      decreases MAX_DEPTH - Depth(context.Now()), body, 1
    {
      hide Consistent, EvalBody, OpenTurn, Source.At, Source.Last, Source.Length;
      context.StartTurn(id, name, source, length, k, n, first, last, item);
      ending := RenderBody(hash, env, place, body, builder, context);
    }

    method ArrayTurns(hash: string, env: Env, node: Node, named: Option<string>, items: seq<Value>, offset: int,
                      limit: int, k: nat, builder: LimitedBuilder, context: Context)
        returns (ending: Ending)
      requires Valid() && Serves(hash, env) && node.ForArray? && k < |context.loops| && builder.Content() == ""
      modifies cache, context, builder
      ensures Valid()
      ensures EvalTurns(env, node.id, named, node.body, Items(items, offset, limit), k, 0, "", old(context.Now()))
           == Collected(builder.Content(), ending, context.Now())
      decreases MAX_DEPTH - Depth(context.Now()), node, 0
    {
      hide Consistent, EvalTurns, EvalBody, OpenTurn, Wrap;
      ghost var source := Items(items, offset, limit);
      ghost var whole := EvalTurns(env, node.id, named, node.body, source, k, 0, "", context.Now());
      var continueIndex := offset;
      var i, n := offset, 0;
      ending := Ran;
      while n < limit && i < |items|
        invariant 0 <= n && i == offset + n && continueIndex == (if n == 0 then offset else i - 1)
        invariant Valid() && k < |context.loops| && Depth(context.Now()) == old(Depth(context.Now()))
        invariant EvalTurns(env, node.id, named, node.body, source, k, n, builder.Content(), context.Now()) == whole
        decreases limit - n
      {
        TurnStep(env, node.id, named, node.body, source, k, n, builder.Content(), context.Now());
        continueIndex := i;
        if i < 0 {
          return Raised(Failed);
        }
        var last := n == limit - 1 || i == |items| - 1;
        ending := RenderTurn(hash, env, node.id, named, node.body, source, InArray, Min(limit, |items|), k, n,
                             i == offset, last, items[i], builder, context);
        if ending.Raised? {
          return;
        }
        if ending == Stopped(Break) {
          context.Put(CONTINUE, Int(Wrap(continueIndex + 1)));
          return;
        }
        i, n := i + 1, n + 1;
      }
      NoTurnLeft(env, node.id, named, node.body, source, k, n, builder.Content(), context.Now());
      context.Put(CONTINUE, Int(Wrap(continueIndex + 1)));
      ending := Ran;
    }

    method RenderRange(hash: string, env: Env, node: Node, context: Context) returns (r: Result)
      requires Valid() && Serves(hash, env) && node.ForRange? && |context.loops| > 0
      modifies cache, context
      ensures Valid() && EvalForRange(env, node, old(context.Now())) == AsOutcome(r, context.Now())
      decreases MAX_DEPTH - Depth(context.Now()), node, 1
    {
      hide Consistent, EvalTurns, EvalNumber, EvalAttributes, Kept;
      var builder := new LimitedBuilder();
      var bounds := context.Attributes(env, node.attributes);
      if bounds.None? {
        return Err(Failed);
      }
      var from := context.Number(env, node.from);
      var to := context.Number(env, node.to);
      if from.None? || to.None? {
        return Ok(Text(builder.Content()));
      }
      RangeTurns(hash, env, node, Wrap(from.value + bounds.value.0), to.value, Wrap(to.value - from.value),
          bounds.value.1, |context.loops| - 1, builder, context);
      r := Ok(Text(builder.Content()));
    }

    /** An exception ends the turns, and what they had printed stays. */
    method RangeTurns(hash: string, env: Env, node: Node, start: int, to: int, length: int, limit: int,
                      k: nat, builder: LimitedBuilder, context: Context)
      requires Valid() && Serves(hash, env) && node.ForRange? && k < |context.loops| && builder.Content() == ""
      requires start == Wrap(start)
      modifies cache, context, builder
      ensures Valid()
      ensures var c := EvalTurns(env, node.id, None, node.body, Range(start, to, length, limit), k, 0, "",
          old(context.Now()));
        c.text == builder.Content() && c.st == context.Now()
      decreases MAX_DEPTH - Depth(context.Now()), node, 0
    {
      hide Consistent, EvalTurns, EvalBody, OpenTurn, Wrap;
      ghost var source := Range(start, to, length, limit);
      ghost var whole := EvalTurns(env, node.id, None, node.body, source, k, 0, "", context.Now());
      var continueIndex := start;
      var i, n := start, 0;
      while i <= to && n < limit
        invariant 0 <= n && i == source.At(n) && continueIndex == (if n == 0 then start else source.At(n - 1))
        invariant Valid() && k < |context.loops| && Depth(context.Now()) == old(Depth(context.Now()))
        invariant EvalTurns(env, node.id, None, node.body, source, k, n, builder.Content(), context.Now()) == whole
        decreases limit - n
      {
        TurnStep(env, node.id, None, node.body, source, k, n, builder.Content(), context.Now());
        continueIndex := i;
        var last := i == to || n == limit - 1;
        var ending := RenderTurn(hash, env, node.id, None, node.body, source, InRange, length, k, n,
                                 i == start, last, Int(i), builder, context);
        if ending.Raised? {
          return;
        }
        if ending == Stopped(Break) {
          context.Put(CONTINUE, Int(Wrap(continueIndex + 1)));
          return;
        }
        WrapNext(start, n);
        i, n := Wrap(i + 1), n + 1;
      }
      NoTurnLeft(env, node.id, None, node.body, source, k, n, builder.Content(), context.Now());
      context.Put(CONTINUE, Int(Wrap(continueIndex + 1)));
    }

    /** The template of an include, from the cache or parsed and put there. */
    method FindInclude(hash: string, env: Env, name: string) returns (template: Option<seq<Node>>, missing: bool)
      requires Valid() && Serves(hash, env)
      modifies cache
      ensures Valid() && template == Included(env, name)
      ensures template.None? ==> missing == env.read(Path(name)).None?
    {
      hide Consistent, Path;
      var cacheKey := IncludeKey(hash, name);
      template := CachedTemplate(cacheKey);
      missing := false;
      if template.Some? {
        ThroughConsistent(services, prepare, cache.entries, hash, name);
        return;
      }
      var file := env.read(Path(name));
      missing := file.None?;
      if file.Some? {
        template := env.parse(file.value);
      }
      if template.Some? {
        ghost var before := cache.entries;
        cache.Put(cacheKey, template.value);
        ConsistentWithInclude(services, prepare, before, cache.entries, hash, name, template.value);
      }
    }

    /** The counter goes back down whether the template renders, throws, or cannot be found. */
    method RenderInclude(hash: string, env: Env, name: Name, with: Option<string>, context: Context) returns (r: Result)
      requires Valid() && Serves(hash, env)
      modifies cache, context
      ensures Valid() && EvalInclude(env, name, with, old(context.Now())) == AsOutcome(r, context.Now())
      decreases MAX_DEPTH - Depth(context.Now()), name, 0
    {
      hide Consistent, EvalTemplate, EvalInclude, Included;
      IncludeStep(env, name, with, context.Now());
      var depth := (if context.depth.Some? then context.depth.value else 0) + 1;
      if depth > MAX_DEPTH {
        return Err(TooDeep);
      }
      context.depth := Some(depth);
      context.peak := Max(context.peak, depth);
      if with.Some? {
        context.Put(name, Text(with.value));
      }
      assert context.Now() == Descend(old(context.Now()), name, with);
      hide Descend;
      var template, missing := FindInclude(hash, env, name);
      if template.None? {
        r := Err(if missing then NotFound else Failed);
      } else {
        r := RenderTemplate(hash, env, template.value, context);
      }
      context.depth := Some((if context.depth.Some? then context.depth.value else 0) - 1);
    }

    method RenderTemplate(hash: string, env: Env, nodes: seq<Node>, context: Context) returns (r: Result)
      requires Valid() && Serves(hash, env)
      modifies cache, context
      ensures Valid() && EvalTemplate(env, nodes, old(context.Now())) == AsOutcome(r, context.Now())
      decreases MAX_DEPTH - Depth(context.Now()), nodes, 2
    {
      hide Consistent, EvalBlock, Kept;
      r := RenderBlock(hash, env, nodes, context);
      if r.Ok? {
        r := Ok(Text(Show(env, r.value)));
      }
    }

    /** Renders a template by name, as scripts do; the file must be there even when its parse is cached. */
    method Render(hash: string, env: Env, name: string, context: Context) returns (r: Result)
      requires Valid() && Serves(hash, env)
      modifies cache, context
      ensures Valid() && RenderAfresh(env, prepare, name, old(context.Now())) == AsOutcome(r, context.Now())
    {
      hide Consistent, EvalTemplate, Kept;
      var file := env.read("templates/" + name + ".liquid");
      if file.None? {
        return Err(NotFound);
      }
      var templateKey := RenderKey(hash, name);
      var template := CachedTemplate(templateKey);
      if template.Some? {
        ThroughConsistentRender(services, prepare, cache.entries, hash, name);
      } else {
        template := env.parse(prepare(file.value));
        if template.None? {
          return Err(Failed);
        }
        ghost var before := cache.entries;
        cache.Put(templateKey, template.value);
        ConsistentWithRender(services, prepare, before, cache.entries, hash, name, template.value);
      }
      r := RenderTemplate(hash, env, template.value, context);
    }
  }

  /** What rendering by name means: read, tidy, parse and evaluate, with no cache anywhere. */
  function RenderAfresh(env: Env, prepare: string -> string, name: string, st: State): Outcome {
    if env.read("templates/" + name + ".liquid").None? then Thrown(NotFound, st)
    else
      var nodes := Rendered(env, prepare, name);
      if nodes.None? then Thrown(Failed, st) else EvalTemplate(env, nodes.value, st)
  }

  lemma ThroughConsistent(services: map<string, Env>, prepare: string -> string, entries: map<string, SoftReference>,
                          hash: string, name: string)
    requires Consistent(services, prepare, entries) && hash in services && Live(entries, IncludeKey(hash, name))
    ensures entries[IncludeKey(hash, name)] == Included(services[hash], name)
  {
    assert HoldsInclude(entries, services[hash], hash, name);
  }

  lemma ThroughConsistentRender(services: map<string, Env>, prepare: string -> string,
                                entries: map<string, SoftReference>, hash: string, name: string)
    requires Consistent(services, prepare, entries) && hash in services && Live(entries, RenderKey(hash, name))
    ensures entries[RenderKey(hash, name)] == Rendered(services[hash], prepare, name)
  {
    assert HoldsRender(entries, services[hash], prepare, hash, name);
  }

  lemma IncludeStep(env: Env, name: Name, with: Option<string>, st: State)
    ensures EvalInclude(env, name, with, st)
         == (if Depth(st) + 1 > MAX_DEPTH then Thrown(TooDeep, st)
             else
               var st1, nodes := Descend(st, name, with), Included(env, name);
               if nodes.None? then Thrown(if env.read(Path(name)).None? then NotFound else Failed, Ascend(st1))
               else
                 var r := EvalTemplate(env, nodes.value, st1);
                 if r.Done? then Done(r.value, Ascend(r.st)) else Thrown(r.error, Ascend(r.st)))
    ensures Depth(Descend(st, name, with)) == Depth(st) + 1
  {
    hide EvalTemplate;
  }

  lemma TurnStep(env: Env, id: Name, name: Option<string>, body: seq<Node>, source: Source, k: nat, n: nat,
                 text: string, st: State)
    requires k < |st.loops| && source.More(n)
    ensures EvalTurns(env, id, name, body, source, k, n, text, st)
         == (var item := source.Item(n);
             if item.None? then Collected(text, Raised(Failed), st)
             else
               var c := EvalBody(env, source.Collector(), body, text, OpenTurn(st, id, name, source, k, n, item.value));
               if c.ending == Stopped(Break) then c.(st := Put(c.st, CONTINUE, source.Resume(n + 1)))
               else if c.ending.Raised? then c
               else EvalTurns(env, id, name, body, source, k, n + 1, c.text, c.st))
  {
    hide EvalBody;
  }

  lemma NoTurnLeft(env: Env, id: Name, name: Option<string>, body: seq<Node>, source: Source, k: nat, n: nat,
                   text: string, st: State)
    requires k < |st.loops| && !source.More(n)
    ensures EvalTurns(env, id, name, body, source, k, n, text, st)
        == Collected(text, Ran, Put(st, CONTINUE, source.Resume(n)))
  {
  }

  lemma WrapNext(start: int, n: int)
    ensures Wrap(Wrap(start + n) + 1) == Wrap(start + (n + 1))
  {
  }

  lemma NoBranchLeft(env: Env, negated: bool, st: State)
    ensures EvalIf(env, [], negated, st) == Done(if negated then Text("") else Nil, st)
  {
  }

  lemma NoPartLeft(env: Env, subject: Value, parts: seq<Part>, hit: bool, st: State)
    ensures EvalTerms(env, subject, parts[|parts|..], hit, st) == Thrown(Failed, st)
  {
  }
}
