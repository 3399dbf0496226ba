/**
 * What a template renders to, by recursion on its tree, with every included file parsed afresh. Each
 * result keeps what the context owes its caller: the include depth, and every `forloop` map that existed.
 */
module LiquidEval {
  import opened LiquidSyntax
  import opened Options
  import Seqs

  /** What holds of any evaluation from `st` to `st'`, whether it returns or throws. */
  ghost predicate Kept(st: State, st': State) {
    && Depth(st') == Depth(st)
    && st.loops <= st'.loops
    && st.longest <= st'.longest
    && st.peak <= st'.peak <= Max(st.peak, MAX_DEPTH)
  }

  /** How the collecting of a body ends: all of it, at a break or continue, or with an exception. */
  datatype Ending = Ran | Stopped(statement: Value) | Raised(error: Error)

  datatype Collected = Collected(text: string, ending: Ending, st: State)

  /** Where the items of a loop come from; `Item` is `None` when reading it throws. */
  datatype Source =
    | Items(values: seq<Value>, offset: int, limit: int)
    | Range(start: int, to: int, length: int, limit: int)
  {
    function At(n: int): int { if Items? then offset + n else Wrap(start + n) }

    predicate More(n: int) { n < limit && if Items? then At(n) < |values| else At(n) <= to }

    function Item(n: int): Option<Value> {
      if Range? then Some(Int(At(n))) else if 0 <= At(n) < |values| then Some(values[At(n)]) else None
    }

    predicate Last(n: int) { n == limit - 1 || At(n) == if Items? then |values| - 1 else to }

    function Length(): int { if Items? then Min(limit, |values|) else length }

    function Collector(): Place { if Items? then InArray else InRange }

    /** `continue`, one past the last turn begun. */
    function Resume(n: int): Value { Int(Wrap((if n == 0 then At(0) else At(n - 1)) + 1)) }
  }

  function Widened(env: Env, st: State, v: Value): State { st.(longest := Max(st.longest, Width(env, v))) }

  function Eval(env: Env, node: Node, st: State): (r: Outcome)
    ensures Kept(st, r.st)
    decreases MAX_DEPTH - Depth(st), node, 3
  {
    match node
    case Leaf(e) =>
      var v := EvalExpr(env, e, st);
      if v.None? then Thrown(Failed, st) else Done(v.value, Widened(env, st, v.value))
    case Block(nodes) => EvalBlock(env, nodes, st)
    case If(branches, negated) => EvalIf(env, branches, negated, st)
    case Case(subject, parts) =>
      var v := EvalExpr(env, subject, st);
      if v.None? then Thrown(Failed, st) else EvalCase(env, v.value, parts, st)
    case ForArray(_, _, _, _, _) => EvalFor(env, node, st)
    case ForRange(_, _, _, _, _) => EvalFor(env, node, st)
    case Include(name, with) => EvalInclude(env, name, with, st)
    case Assign(id, e) =>
      var v := EvalExpr(env, e, st);
      if v.None? then Thrown(Failed, st) else Done(Text(""), Put(st, id, v.value))
    case Capture(id, body) =>
      var r := EvalBlock(env, body, st);
      if r.Done? then Done(Nil, Put(r.st, id, r.value)) else r
  }

  function EvalBlock(env: Env, nodes: seq<Node>, st: State): (r: Outcome)
    ensures Kept(st, r.st)
    decreases MAX_DEPTH - Depth(st), nodes, 1
  {
    var c := EvalBody(env, InBlock, nodes, "", st);
    match c.ending
    case Ran => Done(Text(c.text), c.st)
    case Stopped(statement) => Done(statement, c.st)
    case Raised(error) => Thrown(error, c.st)
  }

  /** The children of a block or of a loop body, in order, printed after `text`. */
  function EvalBody(env: Env, place: Place, nodes: seq<Node>, text: string, st: State): (c: Collected)
    ensures Kept(st, c.st)
    decreases MAX_DEPTH - Depth(st), nodes, 0
  {
    if nodes == [] then Collected(text, Ran, st)
    else
      var r := Eval(env, nodes[0], st);
      if r.Thrown? then Collected(text, Raised(r.error), r.st)
      else
        var t := Collect(env, place, r.value, text);
        if t.ending.Ran? then EvalBody(env, place, nodes[1..], t.text, r.st)
        else Collected(t.text, t.ending, r.st)
  }

  datatype Printed = Printed(text: string, ending: Ending)

  /** One child's value: skipped, passed up, or appended. */
  function Collect(env: Env, place: Place, v: Value, text: string): Printed {
    if v.Nil? && !place.InArray? then Printed(text, Ran)
    else if IsStatement(v) then Printed(text, Stopped(v))
    else
      var pieces := Pieces(env, place, v);
      if pieces.None? then Printed(text, Raised(TooLong))
      else
        var a := AppendAll(env, text, pieces.value);
        Printed(a.text, if a.ok then Ran else Raised(TooLong))
  }

  function EvalIf(env: Env, branches: seq<Branch>, negated: bool, st: State): (r: Outcome)
    ensures Kept(st, r.st)
    decreases MAX_DEPTH - Depth(st), branches, 0
  {
    if branches == [] then Done(if negated then Text("") else Nil, st)
    else
      var v := EvalExpr(env, branches[0].condition, st);
      if v.None? then Thrown(Failed, st)
      else if Truthy(v.value) != negated then EvalBlock(env, branches[0].body, st)
      else EvalIf(env, branches[1..], negated, st)
  }

  function EvalCase(env: Env, subject: Value, parts: seq<Part>, st: State): (r: Outcome)
    ensures Kept(st, r.st)
    decreases MAX_DEPTH - Depth(st), parts, 1
  {
    if parts == [] then Done(Nil, st)
    else if |parts| == 1 && parts[0].Body? then EvalBlock(env, parts[0].nodes, st)
    else EvalTerms(env, subject, parts, false, st)
  }

  /** Terms up to the next block, which is rendered if one of them hit; running out of parts throws. */
  function EvalTerms(env: Env, subject: Value, parts: seq<Part>, hit: bool, st: State): (r: Outcome)
    ensures Kept(st, r.st)
    decreases MAX_DEPTH - Depth(st), parts, 0
  {
    if parts == [] then Thrown(Failed, st)
    else match parts[0]
      case Term(e) =>
        var v := EvalExpr(env, e, st);
        if v.None? then Thrown(Failed, st)
        else EvalTerms(env, subject, parts[1..], hit || env.equal(subject, v.value), st)
      case Body(nodes) =>
        if hit then EvalBlock(env, nodes, st) else EvalCase(env, subject, parts[1..], st)
  }

  predicate IsFor(node: Node) { node.ForArray? || node.ForRange? }

  /** The loop gets a `forloop` map of its own; the enclosing one comes back when it returns. */
  function EvalFor(env: Env, node: Node, st: State): (r: Outcome)
    requires IsFor(node)
    ensures Kept(st, r.st)
    decreases MAX_DEPTH - Depth(st), node, 2
  {
    var outer := Get(st, FORLOOP);
    var st1 := OpenLoop(st);
    var r := if node.ForArray? then EvalForArray(env, node, st1) else EvalForRange(env, node, st1);
    if r.Done? then Done(r.value, CloseLoop(r.st, outer)) else r
  }

  function OpenLoop(st: State): State {
    st.(vars := st.vars[FORLOOP := LoopRef(|st.loops|)], loops := st.loops + [Fresh])
  }

  function CloseLoop(st: State, outer: Value): State {
    st.(vars := if outer.Nil? then st.vars - {FORLOOP} else st.vars[FORLOOP := outer])
  }

  /** Offset and limit; an attribute that is no number is ignored, one that cannot be evaluated throws. */
  function EvalAttributes(env: Env, attributes: seq<Attribute>, offset: int, limit: int, st: State): Option<(int, int)>
    decreases |attributes|
  {
    if attributes == [] then Some((offset, limit))
    else
      var v := EvalExpr(env, attributes[0].expr, st);
      if v.None? then None
      else
        var key, n := attributes[0].key, env.number(v.value);
        EvalAttributes(env, attributes[1..],
                       if n.Some? && key == "offset" then Wrap(n.value) else offset,
                       if n.Some? && key == "limit" then Wrap(n.value) else limit, st)
  }

  /** The items of an array loop: the entries of a map, the elements of a list, or the value itself. */
  function Elements(env: Env, v: Value, st: State): seq<Value> {
    var entries := env.entries(v, st.loops);
    if entries.Some? then entries.value
    else if v.Nil? then []
    else if v.Array? || v.List? then v.items
    else [v]
  }

  function EvalForArray(env: Env, node: Node, st: State): (r: Outcome)
    requires node.ForArray? && |st.loops| > 0
    ensures Kept(st.(loops := st.loops[..|st.loops| - 1]), r.st)
    decreases MAX_DEPTH - Depth(st), node, 1
  {
    var bounds := EvalAttributes(env, node.attributes, 0, MAX_INT, st);
    var v := EvalExpr(env, node.source, st);
    if bounds.None? || v.None? then Thrown(Failed, st)
    else
      var items := Elements(env, v.value, st);
      if items == [] then
        (if node.otherwise.NoElse? then Done(Nil, st) else EvalBlock(env, node.otherwise.nodes, st))
      else
        var name := env.describe(node.source, st.vars, st.loops, st.depth);
        if name.None? then Thrown(Failed, st)
        else
          var k := |st.loops| - 1;
          var named := Some(node.id + "-" + name.value);
          var st1 := st.(loops := st.loops[k := Named(named)]);
          var source := Items(items, bounds.value.0, bounds.value.1);
          var c := EvalTurns(env, node.id, named, node.body, source, k, 0, "", st1);
          if c.ending.Raised? then Thrown(c.ending.error, c.st) else Done(Text(c.text), c.st)
  }

  /** A range loop keeps what it had printed when an exception stops it. */
  function EvalForRange(env: Env, node: Node, st: State): (r: Outcome)
    requires node.ForRange? && |st.loops| > 0
    ensures Kept(st.(loops := st.loops[..|st.loops| - 1]), r.st)
    decreases MAX_DEPTH - Depth(st), node, 1
  {
    var bounds := EvalAttributes(env, node.attributes, 0, MAX_INT, st);
    if bounds.None? then Thrown(Failed, st)
    else
      var from, to := EvalNumber(env, node.from, st), EvalNumber(env, node.to, st);
      if from.None? || to.None? then Done(Text(""), st)
      else
        var source := Range(Wrap(from.value + bounds.value.0), to.value, Wrap(to.value - from.value), bounds.value.1);
        var c := EvalTurns(env, node.id, None, node.body, source, |st.loops| - 1, 0, "", st);
        Done(Text(c.text), c.st)
  }

  function EvalNumber(env: Env, e: Expr, st: State): Option<int> {
    var v := EvalExpr(env, e, st);
    if v.None? then None
    else
      var n := env.number(v.value);
      if n.None? then None else Some(Wrap(n.value))
  }

  /** What the body of turn `n` sees. */
  function OpenTurn(st: State, id: Name, name: Option<string>, source: Source, k: nat, n: nat, item: Value): State
    requires k < |st.loops|
  {
    st.(vars := st.vars[id := item],
        loops := st.loops[k := Turn(name, source.Length(), n, source.At(n) == source.At(0), source.Last(n))])
  }

  /** Turn `n` and those after it, printing after `text`. */
  function EvalTurns(env: Env, id: Name, name: Option<string>, body: seq<Node>, source: Source, k: nat, n: nat,
                     text: string, st: State): (c: Collected)
    requires k < |st.loops|
    ensures Kept(st.(loops := st.loops[..k]), c.st)
    decreases MAX_DEPTH - Depth(st), body, 1 + Max(0, source.limit - n)
  {
    if !source.More(n) then Collected(text, Ran, Put(st, CONTINUE, source.Resume(n)))
    else
      var item := source.Item(n);
      if item.None? then Collected(text, Raised(Failed), st)
      else
        var st1 := OpenTurn(st, id, name, source, k, n, item.value);
        var c := EvalBody(env, source.Collector(), body, text, st1);
        if c.ending == Stopped(Break) then c.(st := Put(c.st, CONTINUE, source.Resume(n + 1)))
        else if c.ending.Raised? then c
        else EvalTurns(env, id, name, body, source, k, n + 1, c.text, c.st)
  }

  function Path(name: string): string {
    "templates/" + if Seqs.EndsWith(name, ".liquid") then name else name + ".liquid"
  }

  /** The file of an include, parsed; `None` when it is missing or does not parse. */
  function Included(env: Env, name: string): Option<seq<Node>> {
    var file := env.read(Path(name));
    if file.None? then None else env.parse(file.value)
  }

  /** Entering an include: counted, and the optional value bound to the template's own name. */
  function Descend(st: State, name: Name, with: Option<string>): State {
    var d := Depth(st) + 1;
    var st1 := st.(depth := Some(d), peak := Max(st.peak, d));
    if with.None? then st1 else Put(st1, name, Text(with.value))
  }

  function Ascend(st: State): State { st.(depth := Some(Depth(st) - 1)) }

  function EvalInclude(env: Env, name: Name, with: Option<string>, st: State): (r: Outcome)
    ensures Kept(st, r.st)
    decreases MAX_DEPTH - Depth(st), name, 0
  {
    if Depth(st) + 1 > MAX_DEPTH then Thrown(TooDeep, st)
    else
      var st1 := Descend(st, name, with);
      var file := env.read(Path(name));
      if file.None? then Thrown(NotFound, Ascend(st1))
      else
        var nodes := env.parse(file.value);
        if nodes.None? then Thrown(Failed, Ascend(st1))
        else
          var r := EvalTemplate(env, nodes.value, st1);
          if r.Done? then Done(r.value, Ascend(r.st)) else Thrown(r.error, Ascend(r.st))
  }

  /** A whole template: a break or continue that reaches the root prints as nothing. */
  function EvalTemplate(env: Env, nodes: seq<Node>, st: State): (r: Outcome)
    ensures Kept(st, r.st)
    ensures r.Done? ==> r.value.Text?
    decreases MAX_DEPTH - Depth(st), nodes, 2
  {
    var r := EvalBlock(env, nodes, st);
    if r.Done? then Done(Text(Show(env, r.value)), r.st) else r
  }
}
