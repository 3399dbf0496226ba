/**
 * Liquid templates as the tree grammar builds them, the values they compute with, and the context they
 * are rendered in.
 */
module LiquidSyntax {
  import opened Options

  const FORLOOP := "forloop"
  const CONTINUE := "continue"
  const MAX_INT: int := 0x7FFF_FFFF
  const MAX_DEPTH: int := 150

  /** Names a template may bind: the include counter and the service handle are kept under names of their own. */
  type Name = s: string | s != "__includeDepth" && s != "__service" witness "item"

  /** `Array` is a Java array and `List` a `java.util.List`: builders print the two differently. */
  datatype Value =
    | Nil
    | Bool(b: bool)
    | Int(n: int)
    | Text(s: string)
    | Array(items: seq<Value>)
    | List(items: seq<Value>)
    | LoopRef(k: nat)
    | Break
    | Continue
    | Opaque(id: nat)

  predicate Truthy(v: Value) { v != Nil && v != Bool(false) }

  predicate IsStatement(v: Value) { v.Break? || v.Continue? }

  /** An atom of the grammar, or an expression with its filters, looked up and computed elsewhere. */
  datatype Expr = Atom(value: Value) | Computed(code: nat)

  datatype Branch = Branch(condition: Expr, body: seq<Node>)

  /** What follows the subject of a `case`: the terms of a `when`, then its block, and so on. */
  datatype Part = Term(expr: Expr) | Body(nodes: seq<Node>)

  datatype Else = NoElse | Else(nodes: seq<Node>)

  datatype Attribute = Attribute(key: string, expr: Expr)

  datatype Node =
    | Leaf(expr: Expr)
    | Block(nodes: seq<Node>)
    | If(branches: seq<Branch>, negated: bool)
    | Case(subject: Expr, parts: seq<Part>)
    | ForArray(id: Name, source: Expr, body: seq<Node>, otherwise: Else, attributes: seq<Attribute>)
    | ForRange(id: Name, from: Expr, to: Expr, body: seq<Node>, attributes: seq<Attribute>)
    | Include(name: Name, with: Option<string>)
    | Assign(id: Name, expr: Expr)
    | Capture(id: Name, body: seq<Node>)

  /** A `forloop` map: `index`, `index0`, `rindex` and `rindex0` follow from `n` and `length`. */
  datatype Loop =
    | Fresh
    | Named(name: Option<string>)
    | Turn(name: Option<string>, length: int, n: int, first: bool, last: bool)

  /**
   * The context, with the `forloop` maps as objects that outlive their loop. `peak` (most includes ever
   * nested) and `longest` (widest value a leaf produced) are history: nothing reads them.
   */
  datatype State = State(vars: map<string, Value>, loops: seq<Loop>, depth: Option<int>, peak: int, longest: nat)

  datatype Error = TooDeep | TooLong | NotFound | Failed

  datatype Outcome = Done(value: Value, st: State) | Thrown(error: Error, st: State)

  /**
   * What the tree does not say: expression evaluation (`None` is an exception), printing, the entries of a
   * map, coercion to a number, equality, the source text of a lookup, files, and the parser.
   */
  datatype Env = Env(
    limit: int,
    eval: (nat, map<string, Value>, seq<Loop>, Option<int>) -> Option<Value>,
    show: Value -> string,
    entries: (Value, seq<Loop>) -> Option<seq<Value>>,
    number: Value -> Option<int>,
    equal: (Value, Value) -> bool,
    describe: (Expr, map<string, Value>, seq<Loop>, Option<int>) -> Option<string>,
    read: string -> Option<string>,
    parse: string -> Option<seq<Node>>)

  function Wrap(n: int): (r: int)
    ensures -MAX_INT - 1 <= r <= MAX_INT
    ensures -MAX_INT - 1 <= n <= MAX_INT ==> r == n
  {
    (n + 0x8000_0000) % 0x1_0000_0000 - 0x8000_0000
  }

  function Max(a: int, b: int): (m: int) { if a < b then b else a }

  function Min(a: int, b: int): (m: int) { if a < b then a else b }

  function Get(st: State, key: string): Value { if key in st.vars then st.vars[key] else Nil }

  function Put(st: State, key: string, v: Value): State { st.(vars := st.vars[key := v]) }

  function Depth(st: State): int { if st.depth.Some? then st.depth.value else 0 }

  function EvalExpr(env: Env, e: Expr, st: State): Option<Value> {
    match e
    case Atom(v) => Some(v)
    case Computed(code) => env.eval(code, st.vars, st.loops, st.depth)
  }

  // ------------------------------------------------------------------- printing

  function Show(env: Env, v: Value): string {
    match v
    case Text(s) => s
    case Break => ""
    case Continue => ""
    case _ => env.show(v)
  }

  /** `append` refuses once the text has reached the limit, whatever the size of what is appended. */
  predicate Full(env: Env, text: string) { env.limit > 0 && |text| >= env.limit }

  function Shows(env: Env, items: seq<Value>): (r: seq<string>)
    ensures |r| == |items|
    ensures forall k :: 0 <= k < |r| ==> r[k] == Show(env, items[k])
  {
    seq(|items|, k requires 0 <= k < |items| => Show(env, items[k]))
  }

  function AsString(env: Env, v: Value): Option<string>
    decreases v
  {
    match v
    case Nil => Some("")
    case Array(items) => Join(env, items, "")
    case List(items) => Join(env, items, "")
    case _ => Some(Show(env, v))
  }

  function Join(env: Env, items: seq<Value>, text: string): Option<string>
    decreases items
  {
    if items == [] then Some(text)
    else
      var s := AsString(env, items[0]);
      if s.None? || Full(env, text) then None else Join(env, items[1..], text + s.value)
  }

  /** Who is collecting: a block, the body of an array loop, or the body of a range loop. */
  datatype Place = InBlock | InArray | InRange

  /** How a collector prints a value, piece by piece; `None` when printing throws. */
  function Pieces(env: Env, place: Place, v: Value): Option<seq<string>> {
    if v.Array? || (v.List? && place.InRange?) then Some(Shows(env, v.items))
    else if place.InBlock? then Some([Show(env, v)])
    else
      var s := AsString(env, v);
      if s.Some? then Some([s.value]) else None
  }

  datatype Appended = Appended(text: string, ok: bool)

  function AppendAll(env: Env, text: string, pieces: seq<string>): Appended
    decreases |pieces|
  {
    if pieces == [] then Appended(text, true)
    else if Full(env, text) then Appended(text, false)
    else AppendAll(env, text + pieces[0], pieces[1..])
  }

  function WidestOf(env: Env, items: seq<Value>): (w: nat)
    ensures forall k :: 0 <= k < |items| ==> |Show(env, items[k])| <= w
  {
    if items == [] then 0 else Max(|Show(env, items[|items| - 1])|, WidestOf(env, items[..|items| - 1]))
  }

  /** The longest text any collector can get out of `v` in one piece. */
  function Width(env: Env, v: Value): (w: nat) {
    var whole := AsString(env, v);
    var w := Max(|Show(env, v)|, if whole.Some? then |whole.value| else 0);
    if v.Array? || v.List? then Max(w, WidestOf(env, v.items)) else w
  }
}
