/**
 * Rendering told as traces: every node that is reached, what it gives, and the bodies it goes through, each
 * with its children in order. Leaves get their values from `env` alone.
 */
module LiquidTraces {
  import opened LiquidSyntax
  import opened LiquidEval
  import opened Options

  /** A node reached in state `before`; `walks` are the bodies it went through, one for each turn of a loop. */
  datatype Visit = Visit(node: Node, before: State, result: Outcome, walks: seq<Walk>)

  /** The children of a body that were reached, printed after `text`, and how it ended. */
  datatype Walk = Walk(place: Place, nodes: seq<Node>, text: string, before: State, visits: seq<Visit>, c: Collected)

  // --------------------------------------------------------------------- printing

  function Joined(pieces: seq<string>): string {
    if pieces == [] then "" else Joined(pieces[..|pieces| - 1]) + pieces[|pieces| - 1]
  }

  /** What a collector prints for a value: nothing for a statement, or for nil outside of an array loop. */
  function Said(env: Env, place: Place, v: Value): seq<string> {
    if IsStatement(v) || (v.Nil? && !place.InArray?) || Pieces(env, place, v).None? then []
    else Pieces(env, place, v).value
  }

  predicate Printable(env: Env, place: Place, v: Value) { (v.Nil? && !place.InArray?) || Pieces(env, place, v).Some? }

  /** The first `j` pieces can be appended: before each the text is below the limit. */
  predicate FitUpTo(env: Env, text: string, pieces: seq<string>, j: int) {
    0 <= j <= |pieces| && forall i :: 0 <= i < j ==> !Full(env, text + Joined(pieces[..i]))
  }

  // ---------------------------------------------------------------------- the traces

  function StateBefore(w: Walk, k: nat): State
    requires k <= |w.visits|
  {
    if k == 0 then w.before else w.visits[k - 1].result.st
  }

  /** What is printed once `visits` are. */
  function TextAfter(env: Env, place: Place, text: string, visits: seq<Visit>): string {
    if visits == [] then text
    else
      var last := visits[|visits| - 1].result;
      TextAfter(env, place, text, visits[..|visits| - 1])
      + if last.Done? then Joined(Said(env, place, last.value)) else ""
  }

  /** The body goes on after this child: it returned no statement, and all of it was printed. */
  predicate GoesOn(env: Env, place: Place, text: string, r: Outcome) {
    && r.Done? && !IsStatement(r.value) && Printable(env, place, r.value)
    && FitUpTo(env, text, Said(env, place, r.value), |Said(env, place, r.value)|)
  }

  /** Or it ends here: with a statement, an exception, or a text that is too long. */
  ghost predicate EndsWith(env: Env, place: Place, text: string, r: Outcome, c: Collected) {
    && c.st == r.st
    && match r
       case Thrown(error, _) => c.text == text && c.ending == Raised(error)
       case Done(v, _) =>
         if IsStatement(v) then c.text == text && c.ending == Stopped(v)
         else if !Printable(env, place, v) then c.text == text && c.ending == Raised(TooLong)
         else
           && c.ending == Raised(TooLong)
           && exists j :: IsCut(env, text, Said(env, place, v), j) && c.text == text + Joined(Said(env, place, v)[..j])
  }

  /** `j` pieces fit and the next one does not. */
  predicate IsCut(env: Env, text: string, pieces: seq<string>, j: int) {
    FitUpTo(env, text, pieces, j) && j < |pieces| && Full(env, text + Joined(pieces[..j]))
  }

  /** Child `k` is reached where the one before it ended, and only the last may end the body. */
  ghost predicate IsChild(env: Env, w: Walk, k: nat)
    requires k < |w.visits| <= |w.nodes|
    decreases w, 0
  {
    && w.visits[k].node == w.nodes[k] && w.visits[k].before == StateBefore(w, k) && IsVisit(env, w.visits[k])
    && var text := TextAfter(env, w.place, w.text, w.visits[..k]);
       if w.c.ending.Ran? || k < |w.visits| - 1 then GoesOn(env, w.place, text, w.visits[k].result)
       else EndsWith(env, w.place, text, w.visits[k].result, w.c)
  }

  /** A body: all its children if it ran, otherwise those up to the one that ended it. */
  ghost predicate IsWalk(env: Env, w: Walk)
    decreases w, 1
  {
    && |w.visits| <= |w.nodes| && (forall k :: 0 <= k < |w.visits| ==> IsChild(env, w, k))
    && if w.c.ending.Ran? then
         |w.visits| == |w.nodes| && w.c.text == TextAfter(env, w.place, w.text, w.visits)
         && w.c.st == StateBefore(w, |w.visits|)
       else w.visits != []
  }

  /** The value of a block: its text, or the statement that stopped it. */
  function BlockResult(c: Collected): Outcome {
    match c.ending
    case Ran => Done(Text(c.text), c.st)
    case Stopped(statement) => Done(statement, c.st)
    case Raised(error) => Thrown(error, c.st)
  }

  ghost predicate IsBlock(env: Env, nodes: seq<Node>, st: State, r: Outcome, walks: seq<Walk>)
    decreases walks, 0
  {
    && |walks| == 1 && var w := walks[0];
    && w.place == InBlock && w.nodes == nodes && w.text == "" && w.before == st && IsWalk(env, w)
    && r == BlockResult(w.c)
  }

  /** Which block a conditional or a `case` renders. */
  datatype Choice = Renders(nodes: seq<Node>) | Nothing | Fails

  function FirstBranch(env: Env, branches: seq<Branch>, negated: bool, st: State): Choice {
    if branches == [] then Nothing
    else
      var v := EvalExpr(env, branches[0].condition, st);
      if v.None? then Fails
      else if Truthy(v.value) != negated then Renders(branches[0].body)
      else FirstBranch(env, branches[1..], negated, st)
  }

  /** `opening` before the first term of a `when`, `hit` after one that is equal to the subject. */
  function FirstWhen(env: Env, subject: Value, parts: seq<Part>, opening: bool, hit: bool, st: State): Choice
    decreases |parts|
  {
    if parts == [] then (if opening then Nothing else Fails)
    else match parts[0]
      case Term(e) =>
        var v := EvalExpr(env, e, st);
        if v.None? then Fails
        else FirstWhen(env, subject, parts[1..], false, hit || env.equal(subject, v.value), st)
      case Body(nodes) =>
        if hit || (opening && |parts| == 1) then Renders(nodes)
        else FirstWhen(env, subject, parts[1..], true, false, st)
  }

  ghost predicate IsChosen(env: Env, choice: Choice, nothing: Value, st: State, r: Outcome, walks: seq<Walk>)
    decreases walks, 1
  {
    match choice
    case Renders(nodes) => IsBlock(env, nodes, st, r, walks)
    case Nothing => walks == [] && r == Done(nothing, st)
    case Fails => walks == [] && r == Thrown(Failed, st)
  }

  /** Turn `j` starts where the one before it ended and prints after it; only the last may break or raise. */
  ghost predicate IsTurn(env: Env, node: Node, name: Option<string>, source: Source, st: State, walks: seq<Walk>,
                         j: nat)
    requires IsFor(node) && j < |walks| && |st.loops| > 0
    decreases walks, 0
  {
    var k, w, from := |st.loops| - 1, walks[j], if j == 0 then st else walks[j - 1].c.st;
    && source.More(j) && source.Item(j).Some? && k < |from.loops|
    && w.place == source.Collector() && w.nodes == node.body && w.text == TextBefore(walks, j)
    && w.before == OpenTurn(from, node.id, name, source, k, j, source.Item(j).value) && IsWalk(env, w)
    && (j < |walks| - 1 ==> !w.c.ending.Raised? && w.c.ending != Stopped(Break))
  }

  function TextBefore(walks: seq<Walk>, j: nat): string
    requires j <= |walks|
  {
    if j == 0 then "" else walks[j - 1].c.text
  }

  /** How a loop ends: a break, an exception, an item that cannot be read, or no more items. */
  predicate LoopEnds(source: Source, st: State, walks: seq<Walk>, c: Collected) {
    var n := |walks|;
    var text, last := TextBefore(walks, n), if n == 0 then st else walks[n - 1].c.st;
    if n > 0 && walks[n - 1].c.ending.Raised? then c == walks[n - 1].c
    else if n > 0 && walks[n - 1].c.ending == Stopped(Break) then
      c == Collected(text, Stopped(Break), Put(last, CONTINUE, source.Resume(n)))
    else if source.More(n) then source.Item(n).None? && c == Collected(text, Raised(Failed), last)
    else c == Collected(text, Ran, Put(last, CONTINUE, source.Resume(n)))
  }

  ghost predicate IsLoop(env: Env, node: Node, name: Option<string>, source: Source, st: State, walks: seq<Walk>,
                         c: Collected)
    requires IsFor(node) && |st.loops| > 0
    decreases walks, 1
  {
    (forall j :: 0 <= j < |walks| ==> IsTurn(env, node, name, source, st, walks, j)) && LoopEnds(source, st, walks, c)
  }

  /** An array loop, from the state with its own `forloop`; the result before that is closed. */
  ghost predicate IsArrayLoop(env: Env, node: Node, st: State, r: Outcome, walks: seq<Walk>)
    requires node.ForArray? && |st.loops| > 0
    decreases walks, 2
  {
    var bounds, v := EvalAttributes(env, node.attributes, 0, MAX_INT, st), EvalExpr(env, node.source, st);
    if bounds.None? || v.None? then walks == [] && r == Thrown(Failed, st)
    else
      var items := Elements(env, v.value, st);
      if items == [] && node.otherwise.NoElse? then walks == [] && r == Done(Nil, st)
      else if items == [] then IsBlock(env, node.otherwise.nodes, st, r, walks)
      else
        var name := env.describe(node.source, st.vars, st.loops, st.depth);
        if name.None? then walks == [] && r == Thrown(Failed, st)
        else
          var named := Some(node.id + "-" + name.value);
          exists c :: IsLoop(env, node, named, Items(items, bounds.value.0, bounds.value.1),
                             st.(loops := st.loops[|st.loops| - 1 := Named(named)]), walks, c)
            && r == if c.ending.Raised? then Thrown(c.ending.error, c.st) else Done(Text(c.text), c.st)
  }

  ghost predicate IsRangeLoop(env: Env, node: Node, st: State, r: Outcome, walks: seq<Walk>)
    requires node.ForRange? && |st.loops| > 0
    decreases walks, 2
  {
    var bounds := EvalAttributes(env, node.attributes, 0, MAX_INT, st);
    var from, to := EvalNumber(env, node.from, st), EvalNumber(env, node.to, st);
    if bounds.None? then walks == [] && r == Thrown(Failed, st)
    else if from.None? || to.None? then walks == [] && r == Done(Text(""), st)
    else
      var source := Range(Wrap(from.value + bounds.value.0), to.value, Wrap(to.value - from.value), bounds.value.1);
      exists c :: IsLoop(env, node, None, source, st, walks, c) && r == Done(Text(c.text), c.st)
  }

  /** What a node gives, and the bodies it goes through. */
  ghost predicate IsVisit(env: Env, v: Visit)
    decreases v, 0
  {
    var st := v.before;
    match v.node
    case Leaf(e) =>
      var x := EvalExpr(env, e, st);
      v.walks == [] && v.result == if x.None? then Thrown(Failed, st) else Done(x.value, Widened(env, st, x.value))
    case Block(nodes) => IsBlock(env, nodes, st, v.result, v.walks)
    case If(branches, negated) =>
      IsChosen(env, FirstBranch(env, branches, negated, st), if negated then Text("") else Nil, st, v.result, v.walks)
    case Case(subject, parts) =>
      var x := EvalExpr(env, subject, st);
      var choice := if x.None? then Fails else FirstWhen(env, x.value, parts, true, false, st);
      IsChosen(env, choice, Nil, st, v.result, v.walks)
    case ForArray(_, _, _, _, _) =>
      exists r :: IsArrayLoop(env, v.node, OpenLoop(st), r, v.walks) && v.result == Closed(r, st)
    case ForRange(_, _, _, _, _) =>
      exists r :: IsRangeLoop(env, v.node, OpenLoop(st), r, v.walks) && v.result == Closed(r, st)
    case Include(name, with) =>
      if Depth(st) >= MAX_DEPTH then v.walks == [] && v.result == Thrown(TooDeep, st)
      else
        var st1, file := Descend(st, name, with), env.read(Path(name));
        var nodes := if file.None? then None else env.parse(file.value);
        if nodes.None? then
          v.walks == [] && v.result == Thrown(if file.None? then NotFound else Failed, Ascend(st1))
        else exists r :: IsBlock(env, nodes.value, st1, r, v.walks) && v.result == Surfaced(env, r)
    case Assign(id, e) =>
      var x := EvalExpr(env, e, st);
      v.walks == [] && v.result == if x.None? then Thrown(Failed, st) else Done(Text(""), Put(st, id, x.value))
    case Capture(id, body) =>
      exists r :: IsBlock(env, body, st, r, v.walks)
        && v.result == if r.Done? then Done(Nil, Put(r.st, id, r.value)) else r
  }

  /** The enclosing `forloop` comes back when the loop returns. */
  function Closed(r: Outcome, before: State): Outcome {
    if r.Done? then Done(r.value, CloseLoop(r.st, Get(before, FORLOOP))) else r
  }

  /** The counter comes back, and the value is a text. */
  function Surfaced(env: Env, r: Outcome): Outcome {
    if r.Done? then Done(Text(Show(env, r.value)), Ascend(r.st)) else Thrown(r.error, Ascend(r.st))
  }

  // ------------------------------------------------------------------- one collector

  lemma JoinedMore(pieces: seq<string>, j: nat)
    requires j < |pieces|
    ensures Joined(pieces[..j + 1]) == Joined(pieces[..j]) + pieces[j]
  {
    assert pieces[..j + 1][..j] == pieces[..j];
  }

  /** Appending piece by piece stops at the first that finds the text full. */
  lemma {:induction false} AppendsWhatFits(env: Env, text: string, pieces: seq<string>, j: nat)
    requires FitUpTo(env, text, pieces, j)
    requires j == |pieces| || Full(env, text + Joined(pieces[..j]))
    ensures AppendAll(env, text, pieces) == Appended(text + Joined(pieces[..j]), j == |pieces|)
  {
    AppendsFrom(env, text, pieces, j, 0);
    assert pieces[..0] == [] && text + "" == text && pieces[0..] == pieces;
  }

  lemma {:induction false} AppendsFrom(env: Env, text: string, pieces: seq<string>, j: nat, i: nat)
    requires i <= j && FitUpTo(env, text, pieces, j)
    requires j == |pieces| || Full(env, text + Joined(pieces[..j]))
    ensures AppendAll(env, text + Joined(pieces[..i]), pieces[i..])
         == Appended(text + Joined(pieces[..j]), j == |pieces|)
    decreases j - i
  {
    if i < j {
      JoinedMore(pieces, i);
      assert pieces[i..][0] == pieces[i] && pieces[i..][1..] == pieces[i + 1..];
      assert text + Joined(pieces[..i]) + pieces[i] == text + Joined(pieces[..i + 1]);
      AppendsFrom(env, text, pieces, j, i + 1);
    } else if i < |pieces| {
      assert pieces[i..] != [];
    }
  }

  /** How many pieces fit. */
  lemma {:induction false} FitCount(env: Env, text: string, pieces: seq<string>, i: nat) returns (j: nat)
    requires FitUpTo(env, text, pieces, i)
    ensures FitUpTo(env, text, pieces, j) && (j == |pieces| || Full(env, text + Joined(pieces[..j])))
    decreases |pieces| - i
  {
    if i == |pieces| || Full(env, text + Joined(pieces[..i])) {
      j := i;
    } else {
      j := FitCount(env, text, pieces, i + 1);
    }
  }

  /** A child's value is collected as `GoesOn` and `EndsWith` say. */
  lemma CollectIs(env: Env, place: Place, v: Value, text: string, st: State)
    ensures var t, r := Collect(env, place, v, text), Done(v, st);
      && (t.ending.Ran? <==> GoesOn(env, place, text, r))
      && (t.ending.Ran? ==> t.text == text + Joined(Said(env, place, v)))
      && (!t.ending.Ran? ==> EndsWith(env, place, text, r, Collected(t.text, t.ending, st)))
  {
    var pieces := Said(env, place, v);
    if (v.Nil? && !place.InArray?) || IsStatement(v) || Pieces(env, place, v).None? {
      assert text + Joined([]) == text;
      assert FitUpTo(env, text, [], 0);
    } else {
      hide Pieces, AppendAll, Full;
      var j := FitCount(env, text, pieces, 0);
      AppendsWhatFits(env, text, pieces, j);
      if j == |pieces| {
        assert pieces[..j] == pieces;
      } else {
        assert IsCut(env, text, pieces, j);
      }
    }
  }

  // ---------------------------------------------------------------- traces of renderings

  lemma NextChild(env: Env, w: Walk, v: Visit, c: Collected)
    requires w.c.ending.Ran? && |w.visits| < |w.nodes| && forall k :: 0 <= k < |w.visits| ==> IsChild(env, w, k)
    requires v.node == w.nodes[|w.visits|] && v.before == StateBefore(w, |w.visits|) && IsVisit(env, v)
    requires var text := TextAfter(env, w.place, w.text, w.visits);
      if c.ending.Ran? then GoesOn(env, w.place, text, v.result) else EndsWith(env, w.place, text, v.result, c)
    ensures var w' := w.(visits := w.visits + [v], c := c); forall k :: 0 <= k < |w'.visits| ==> IsChild(env, w', k)
  {
    hide IsVisit, GoesOn, EndsWith;
    var w' := w.(visits := w.visits + [v], c := c);
    forall k | 0 <= k < |w'.visits| ensures IsChild(env, w', k) {
      assert w'.visits[..k] == w.visits[..k];
      if k < |w.visits| {
        assert IsChild(env, w, k);
      } else {
        assert w.visits[..k] == w.visits;
      }
    }
  }

  lemma {:induction false} VisitOf(env: Env, node: Node, st: State) returns (v: Visit)
    ensures v.node == node && v.before == st && v.result == Eval(env, node, st) && IsVisit(env, v)
    decreases MAX_DEPTH - Depth(st), node, 3
  {
    hide IsBlock, IsChosen, IsArrayLoop, IsRangeLoop, Kept, EvalBlock, EvalIf, EvalCase, EvalFor, EvalInclude;
    var r := Eval(env, node, st);
    match node {
      case Leaf(e) =>
        v := Visit(node, st, r, []);
      case Block(nodes) =>
        var walks := BlockOf(env, nodes, st);
        v := Visit(node, st, r, walks);
      case If(branches, negated) =>
        var walks := IfOf(env, branches, negated, st);
        v := Visit(node, st, r, walks);
      case Case(subject, parts) =>
        var x := EvalExpr(env, subject, st);
        if x.None? {
          v := Visit(node, st, r, []);
          FailsIsChosen(env, st);
        } else {
          var walks := CaseOf(env, x.value, parts, st);
          v := Visit(node, st, r, walks);
        }
      case ForArray(_, _, _, _, _) =>
        v := ForOf(env, node, st);
      case ForRange(_, _, _, _, _) =>
        v := ForOf(env, node, st);
      case Include(name, with) =>
        v := IncludeOf(env, name, with, st);
      case Assign(id, e) =>
        v := Visit(node, st, r, []);
      case Capture(id, body) =>
        var walks := BlockOf(env, body, st);
        v := Visit(node, st, r, walks);
        assert IsBlock(env, body, st, EvalBlock(env, body, st), walks);
    }
  }

  lemma FailsIsChosen(env: Env, st: State)
    ensures IsChosen(env, Fails, Nil, st, Thrown(Failed, st), [])
  {
  }

  lemma {:induction false} BlockOf(env: Env, nodes: seq<Node>, st: State) returns (walks: seq<Walk>)
    ensures IsBlock(env, nodes, st, EvalBlock(env, nodes, st), walks)
    decreases MAX_DEPTH - Depth(st), nodes, 2
  {
    hide EvalBody, IsWalk, Kept;
    var w := WalkOf(env, InBlock, nodes, "", st);
    walks := [w];
  }

  lemma {:induction false} WalkOf(env: Env, place: Place, nodes: seq<Node>, text: string, st: State) returns (w: Walk)
    ensures w.place == place && w.nodes == nodes && w.text == text && w.before == st && IsWalk(env, w)
    ensures w.c == EvalBody(env, place, nodes, text, st)
    decreases MAX_DEPTH - Depth(st), nodes, 1
  {
    w := WalkOn(env, Walk(place, nodes, text, st, [], Collected(text, Ran, st)), nodes);
    assert nodes[0..] == nodes;
  }

  /** The children of `rest`, after those in `w`. */
  lemma {:induction false} WalkOn(env: Env, w: Walk, rest: seq<Node>) returns (w': Walk)
    requires w.c.ending.Ran? && |w.visits| + |rest| == |w.nodes| && w.nodes[|w.visits|..] == rest
    requires forall k :: 0 <= k < |w.visits| ==> IsChild(env, w, k)
    requires w.c.text == TextAfter(env, w.place, w.text, w.visits) && w.c.st == StateBefore(w, |w.visits|)
    ensures w'.place == w.place && w'.nodes == w.nodes && w'.text == w.text && w'.before == w.before && IsWalk(env, w')
    ensures w'.c == EvalBody(env, w.place, rest, w.c.text, w.c.st)
    decreases MAX_DEPTH - Depth(w.c.st), rest, 0
  {
    hide Eval, IsVisit, IsChild, Collect, GoesOn, EndsWith, Said;
    if rest == [] {
      w' := w;
    } else {
      var n := |w.visits|;
      assert rest[0] == w.nodes[n] && rest[1..] == w.nodes[n + 1..];
      var v := VisitOf(env, rest[0], w.c.st);
      var r := v.result;
      if r.Thrown? {
        var c := Collected(w.c.text, Raised(r.error), r.st);
        assert EndsWith(env, w.place, w.c.text, r, c) by { ThrownEnds(env, w.place, w.c.text, r); }
        NextChild(env, w, v, c);
        w' := w.(visits := w.visits + [v], c := c);
      } else {
        var t := Collect(env, w.place, r.value, w.c.text);
        CollectIs(env, w.place, r.value, w.c.text, r.st);
        var c := Collected(t.text, t.ending, r.st);
        NextChild(env, w, v, c);
        var w1 := w.(visits := w.visits + [v], c := c);
        assert w1.visits[..n] == w.visits;
        if t.ending.Ran? {
          w' := WalkOn(env, w1, rest[1..]);
        } else {
          w' := w1;
        }
      }
    }
  }

  lemma ThrownEnds(env: Env, place: Place, text: string, r: Outcome)
    requires r.Thrown?
    ensures EndsWith(env, place, text, r, Collected(text, Raised(r.error), r.st))
  {
  }

  lemma {:induction false} IfOf(env: Env, branches: seq<Branch>, negated: bool, st: State) returns (walks: seq<Walk>)
    ensures IsChosen(env, FirstBranch(env, branches, negated, st), if negated then Text("") else Nil, st,
                     EvalIf(env, branches, negated, st), walks)
    decreases MAX_DEPTH - Depth(st), branches, 0
  {
    hide EvalBlock, IsBlock, Kept, EvalExpr;
    walks := [];
    if branches != [] {
      var v := EvalExpr(env, branches[0].condition, st);
      if v.Some? {
        if Truthy(v.value) != negated {
          walks := BlockOf(env, branches[0].body, st);
        } else {
          walks := IfOf(env, branches[1..], negated, st);
        }
      }
    }
  }

  lemma {:induction false} CaseOf(env: Env, subject: Value, parts: seq<Part>, st: State) returns (walks: seq<Walk>)
    ensures IsChosen(env, FirstWhen(env, subject, parts, true, false, st), Nil, st,
                     EvalCase(env, subject, parts, st), walks)
    decreases MAX_DEPTH - Depth(st), parts, 1
  {
    hide EvalBlock, EvalTerms, IsBlock, Kept, EvalExpr;
    walks := [];
    if parts != [] {
      if |parts| == 1 && parts[0].Body? {
        walks := BlockOf(env, parts[0].nodes, st);
      } else {
        walks := TermsOf(env, subject, parts, true, false, st);
      }
    }
  }

  lemma {:induction false} TermsOf(env: Env, subject: Value, parts: seq<Part>, opening: bool, hit: bool, st: State)
      returns (walks: seq<Walk>)
    requires opening ==> parts != [] && !(|parts| == 1 && parts[0].Body?)
    ensures IsChosen(env, FirstWhen(env, subject, parts, opening, hit, st), Nil, st,
                     EvalTerms(env, subject, parts, hit, st), walks)
    decreases MAX_DEPTH - Depth(st), parts, 0
  {
    hide EvalBlock, EvalCase, IsBlock, Kept, EvalExpr;
    walks := [];
    if parts != [] {
      match parts[0] {
        case Term(e) =>
          var v := EvalExpr(env, e, st);
          if v.Some? {
            walks := TermsOf(env, subject, parts[1..], false, hit || env.equal(subject, v.value), st);
          }
        case Body(nodes) =>
          if hit {
            walks := BlockOf(env, nodes, st);
          } else {
            walks := CaseOf(env, subject, parts[1..], st);
          }
      }
    }
  }

  lemma {:induction false} IncludeOf(env: Env, name: Name, with: Option<string>, st: State) returns (v: Visit)
    ensures v.node == Node.Include(name, with) && v.before == st && IsVisit(env, v)
    ensures v.result == EvalInclude(env, name, with, st)
    decreases MAX_DEPTH - Depth(st), name, 0
  {
    hide EvalBlock, IsBlock, Kept, Path;
    var r := EvalInclude(env, name, with, st);
    var nodes := Included(env, name);
    if Depth(st) < MAX_DEPTH && nodes.Some? {
      var st1 := Descend(st, name, with);
      var walks := BlockOf(env, nodes.value, st1);
      assert EvalTemplate(env, nodes.value, st1).Done? <==> EvalBlock(env, nodes.value, st1).Done?;
      assert r == Surfaced(env, EvalBlock(env, nodes.value, st1));
      v := Visit(Node.Include(name, with), st, r, walks);
    } else {
      v := Visit(Node.Include(name, with), st, r, []);
    }
  }

  lemma {:induction false} ForOf(env: Env, node: Node, st: State) returns (v: Visit)
    requires IsFor(node)
    ensures v.node == node && v.before == st && v.result == Eval(env, node, st) && IsVisit(env, v)
    decreases MAX_DEPTH - Depth(st), node, 2
  {
    hide IsArrayLoop, IsRangeLoop, EvalForArray, EvalForRange, Kept, CloseLoop;
    var st1, r := OpenLoop(st), Eval(env, node, st);
    assert r == EvalFor(env, node, st);
    if node.ForArray? {
      var walks := ArrayOf(env, node, st1);
      v := Visit(node, st, r, walks);
      assert r == Closed(EvalForArray(env, node, st1), st);
    } else {
      var walks := RangeOf(env, node, st1);
      v := Visit(node, st, r, walks);
      assert r == Closed(EvalForRange(env, node, st1), st);
    }
  }

  lemma {:induction false} ArrayOf(env: Env, node: Node, st: State) returns (walks: seq<Walk>)
    requires node.ForArray? && |st.loops| > 0
    ensures IsArrayLoop(env, node, st, EvalForArray(env, node, st), walks)
    decreases MAX_DEPTH - Depth(st), node, 1
  {
    hide IsLoop, IsBlock, EvalTurns, EvalBlock, EvalAttributes, EvalExpr, Elements, Kept;
    var bounds, v := EvalAttributes(env, node.attributes, 0, MAX_INT, st), EvalExpr(env, node.source, st);
    walks := [];
    if bounds.Some? && v.Some? {
      var items := Elements(env, v.value, st);
      if items == [] {
        if node.otherwise.Else? {
          walks := BlockOf(env, node.otherwise.nodes, st);
        }
      } else {
        var name := env.describe(node.source, st.vars, st.loops, st.depth);
        if name.Some? {
          var named := Some(node.id + "-" + name.value);
          var st1 := st.(loops := st.loops[|st.loops| - 1 := Named(named)]);
          walks := TurnsOf(env, node, named, Items(items, bounds.value.0, bounds.value.1), st1, []);
        }
      }
    }
  }

  lemma {:induction false} RangeOf(env: Env, node: Node, st: State) returns (walks: seq<Walk>)
    requires node.ForRange? && |st.loops| > 0
    ensures IsRangeLoop(env, node, st, EvalForRange(env, node, st), walks)
    decreases MAX_DEPTH - Depth(st), node, 1
  {
    hide IsLoop, EvalTurns, EvalAttributes, EvalNumber, Kept;
    var bounds := EvalAttributes(env, node.attributes, 0, MAX_INT, st);
    var from, to := EvalNumber(env, node.from, st), EvalNumber(env, node.to, st);
    walks := [];
    if bounds.Some? && from.Some? && to.Some? {
      var source := Range(Wrap(from.value + bounds.value.0), to.value, Wrap(to.value - from.value), bounds.value.1);
      walks := TurnsOf(env, node, None, source, st, []);
    }
  }

  function After(st: State, walks: seq<Walk>): State { if walks == [] then st else walks[|walks| - 1].c.st }

  /** The turns after those in `walks`. */
  lemma {:induction false} TurnsOf(env: Env, node: Node, name: Option<string>, source: Source, st: State,
                                   walks: seq<Walk>)
      returns (all: seq<Walk>)
    requires IsFor(node) && |st.loops| > 0 && |st.loops| <= |After(st, walks).loops|
    requires forall j :: 0 <= j < |walks| ==> IsTurn(env, node, name, source, st, walks, j)
    requires walks != [] ==> var c := walks[|walks| - 1].c; !c.ending.Raised? && c.ending != Stopped(Break)
    ensures IsLoop(env, node, name, source, st, all,
                   EvalTurns(env, node.id, name, node.body, source, |st.loops| - 1, |walks|, TextBefore(walks, |walks|),
                             After(st, walks)))
    decreases MAX_DEPTH - Depth(After(st, walks)), node, 0, 1 + Max(0, source.limit - |walks|)
  {
    hide EvalBody, IsWalk, IsTurn, Source.At, Source.Last, Source.Resume, Source.Length;
    var k, n, from := |st.loops| - 1, |walks|, After(st, walks);
    all := walks;
    if source.More(n) && source.Item(n).Some? {
      var before := OpenTurn(from, node.id, name, source, k, n, source.Item(n).value);
      var w := WalkOf(env, source.Collector(), node.body, TextBefore(walks, n), before);
      AddedTurn(env, node, name, source, st, walks, w);
      all := walks + [w];
      if !w.c.ending.Raised? && w.c.ending != Stopped(Break) {
        all := TurnsOf(env, node, name, source, st, walks + [w]);
      }
    }
  }

  lemma AddedTurn(env: Env, node: Node, name: Option<string>, source: Source, st: State, walks: seq<Walk>, w: Walk)
    requires IsFor(node) && |st.loops| > 0 && |st.loops| <= |After(st, walks).loops|
    requires forall j :: 0 <= j < |walks| ==> IsTurn(env, node, name, source, st, walks, j)
    requires walks != [] ==> var c := walks[|walks| - 1].c; !c.ending.Raised? && c.ending != Stopped(Break)
    requires source.More(|walks|) && source.Item(|walks|).Some? && IsWalk(env, w)
    requires w.place == source.Collector() && w.nodes == node.body && w.text == TextBefore(walks, |walks|)
    requires w.before == OpenTurn(After(st, walks), node.id, name, source, |st.loops| - 1, |walks|,
                                  source.Item(|walks|).value)
    ensures forall j :: 0 <= j <= |walks| ==> IsTurn(env, node, name, source, st, walks + [w], j)
  {
    hide IsWalk, OpenTurn, Source.Item, Source.More;
    var all := walks + [w];
    forall j | 0 <= j <= |walks| ensures IsTurn(env, node, name, source, st, all, j) {
      if j < |walks| {
        assert IsTurn(env, node, name, source, st, walks, j);
        assert TextBefore(all, j) == TextBefore(walks, j);
      }
    }
  }

  // ------------------------------------------------------------- and there is one result

  /** A child that goes on does not end the body, and a body ends in one way. */
  lemma EndsOnce(env: Env, place: Place, text: string, r: Outcome, c: Collected, d: Collected)
    requires EndsWith(env, place, text, r, c)
    ensures !GoesOn(env, place, text, r)
    ensures EndsWith(env, place, text, r, d) ==> c == d
  {
    hide Said, Printable, Joined, Full;
    if r.Done? && !IsStatement(r.value) && Printable(env, place, r.value) {
      var pieces := Said(env, place, r.value);
      var i :| IsCut(env, text, pieces, i) && c.text == text + Joined(pieces[..i]);
      if EndsWith(env, place, text, r, d) {
        var j :| IsCut(env, text, pieces, j) && d.text == text + Joined(pieces[..j]);
        assert i == j;
      }
    }
  }

  /** The outcome of one child is what `EvalBody` makes of it. */
  lemma ChildIsCollected(env: Env, w: Walk, k: nat)
    requires k < |w.visits| <= |w.nodes| && w.visits[k].before == StateBefore(w, k)
    requires w.visits[k].node == w.nodes[k] && w.visits[k].result == Eval(env, w.nodes[k], w.visits[k].before)
    ensures var v, text := w.visits[k], TextAfter(env, w.place, w.text, w.visits[..k]);
      var c := EvalBody(env, w.place, w.nodes[k..], text, v.before);
      && (GoesOn(env, w.place, text, v.result) ==>
            var more := TextAfter(env, w.place, w.text, w.visits[..k + 1]);
            c == EvalBody(env, w.place, w.nodes[k + 1..], more, v.result.st))
      && forall d :: EndsWith(env, w.place, text, v.result, d) ==> c == d
  {
    hide Eval, Collect, GoesOn, EndsWith, Said;
    var v, text := w.visits[k], TextAfter(env, w.place, w.text, w.visits[..k]);
    var c := EvalBody(env, w.place, w.nodes[k..], text, v.before);
    assert w.nodes[k..][0] == w.nodes[k] && w.nodes[k..][1..] == w.nodes[k + 1..];
    assert w.visits[..k + 1][..k] == w.visits[..k];
    if v.result.Thrown? {
      ThrownEnds(env, w.place, text, v.result);
      EndsOnce(env, w.place, text, v.result, c, c);
    } else {
      CollectIs(env, w.place, v.result.value, text, v.result.st);
    }
    forall d | EndsWith(env, w.place, text, v.result, d) ensures c == d {
      EndsOnce(env, w.place, text, v.result, d, c);
    }
  }

  lemma {:induction false} ChildIsEval(env: Env, w: Walk, k: nat)
    requires k < |w.visits| <= |w.nodes| && IsChild(env, w, k)
    ensures var v, text := w.visits[k], TextAfter(env, w.place, w.text, w.visits[..k]);
      var c := EvalBody(env, w.place, w.nodes[k..], text, StateBefore(w, k));
      if w.c.ending.Ran? || k < |w.visits| - 1 then
        c == EvalBody(env, w.place, w.nodes[k + 1..], TextAfter(env, w.place, w.text, w.visits[..k + 1]),
                      StateBefore(w, k + 1))
      else c == w.c
    decreases w, 0
  {
    VisitIsEval(env, w.visits[k]);
    hide EvalBody, IsVisit, GoesOn, EndsWith, TextAfter;
    ChildIsCollected(env, w, k);
  }

  /** The first `k` children are the first `k` steps of the body. */
  lemma {:induction false} WalkUpTo(env: Env, w: Walk, k: nat)
    requires IsWalk(env, w) && k <= |w.visits| <= |w.nodes| && (w.c.ending.Ran? || k < |w.visits|)
    ensures EvalBody(env, w.place, w.nodes, w.text, w.before)
         == EvalBody(env, w.place, w.nodes[k..], TextAfter(env, w.place, w.text, w.visits[..k]), StateBefore(w, k))
    decreases w, 1, k
  {
    hide EvalBody, IsWalk, IsChild, TextAfter, StateBefore;
    if k == 0 {
      assert w.nodes[0..] == w.nodes && w.visits[..0] == [];
      NothingYet(env, w);
    } else {
      var j := k - 1;
      WalkHasChild(env, w, j);
      WalkUpTo(env, w, j);
      ChildIsEval(env, w, j);
      assert j + 1 == k;
    }
  }

  lemma NothingYet(env: Env, w: Walk)
    ensures TextAfter(env, w.place, w.text, []) == w.text && StateBefore(w, 0) == w.before
  {
  }

  lemma WalkHasChild(env: Env, w: Walk, k: nat)
    requires IsWalk(env, w) && k < |w.visits|
    ensures |w.visits| <= |w.nodes| && IsChild(env, w, k)
  {
    hide IsChild;
  }

  /** A body that has a trace ends as the trace says. */
  lemma {:induction false} WalkIsEval(env: Env, w: Walk)
    requires IsWalk(env, w)
    ensures w.c == EvalBody(env, w.place, w.nodes, w.text, w.before)
    decreases w, 2
  {
    var n := |w.visits|;
    if w.c.ending.Ran? {
      WalkUpTo(env, w, n);
      assert w.nodes[n..] == [] && w.visits[..n] == w.visits;
    } else {
      assert IsChild(env, w, n - 1);
      hide EvalBody, IsChild, TextAfter, StateBefore;
      WalkUpTo(env, w, n - 1);
      ChildIsEval(env, w, n - 1);
    }
  }

  lemma {:induction false} BlockIsEval(env: Env, nodes: seq<Node>, st: State, r: Outcome, walks: seq<Walk>)
    requires IsBlock(env, nodes, st, r, walks)
    ensures r == EvalBlock(env, nodes, st)
    decreases walks, 0
  {
    hide EvalBody, IsWalk;
    WalkIsEval(env, walks[0]);
  }

  lemma {:induction false} ChosenIsIf(env: Env, branches: seq<Branch>, negated: bool, st: State, r: Outcome,
                                      walks: seq<Walk>)
    requires IsChosen(env, FirstBranch(env, branches, negated, st), if negated then Text("") else Nil, st, r, walks)
    ensures r == EvalIf(env, branches, negated, st)
    decreases walks, 1, branches
  {
    hide EvalBlock, IsBlock, EvalExpr;
    if branches != [] {
      var v := EvalExpr(env, branches[0].condition, st);
      if v.Some? {
        if Truthy(v.value) != negated {
          BlockIsEval(env, branches[0].body, st, r, walks);
        } else {
          ChosenIsIf(env, branches[1..], negated, st, r, walks);
        }
      }
    }
  }

  lemma {:induction false} ChosenIsCase(env: Env, subject: Value, parts: seq<Part>, st: State, r: Outcome,
                                        walks: seq<Walk>)
    requires IsChosen(env, FirstWhen(env, subject, parts, true, false, st), Nil, st, r, walks)
    ensures r == EvalCase(env, subject, parts, st)
    decreases walks, 1, parts, 1
  {
    hide EvalBlock, EvalTerms, IsBlock, EvalExpr;
    if parts != [] {
      if |parts| == 1 && parts[0].Body? {
        BlockIsEval(env, parts[0].nodes, st, r, walks);
      } else {
        ChosenIsTerms(env, subject, parts, true, false, st, r, walks);
      }
    }
  }

  lemma {:induction false} ChosenIsTerms(env: Env, subject: Value, parts: seq<Part>, opening: bool, hit: bool,
                                         st: State, r: Outcome, walks: seq<Walk>)
    requires opening ==> parts != [] && !(|parts| == 1 && parts[0].Body?)
    requires IsChosen(env, FirstWhen(env, subject, parts, opening, hit, st), Nil, st, r, walks)
    ensures r == EvalTerms(env, subject, parts, hit, st)
    decreases walks, 1, parts, 0
  {
    hide EvalBlock, EvalCase, IsBlock, EvalExpr;
    if parts != [] {
      match parts[0] {
        case Term(e) =>
          var v := EvalExpr(env, e, st);
          if v.Some? {
            ChosenIsTerms(env, subject, parts[1..], false, hit || env.equal(subject, v.value), st, r, walks);
          }
        case Body(nodes) =>
          if hit {
            BlockIsEval(env, nodes, st, r, walks);
          } else {
            ChosenIsCase(env, subject, parts[1..], st, r, walks);
          }
      }
    }
  }

  lemma {:induction false} TurnIsEval(env: Env, node: Node, name: Option<string>, source: Source, st: State,
                                      walks: seq<Walk>, j: nat)
    requires IsFor(node) && |st.loops| > 0 && j < |walks| && IsTurn(env, node, name, source, st, walks, j)
    ensures var w, from := walks[j], After(st, walks[..j]);
      && source.More(j) && source.Item(j).Some? && |st.loops| <= |from.loops|
      && w.c == EvalBody(env, source.Collector(), node.body, TextBefore(walks, j),
                         OpenTurn(from, node.id, name, source, |st.loops| - 1, j, source.Item(j).value))
      && w.c.st == After(st, walks[..j + 1]) && w.c.text == TextBefore(walks, j + 1)
      && |from.loops| <= |w.c.st.loops|
      && (j < |walks| - 1 ==> !w.c.ending.Raised? && w.c.ending != Stopped(Break))
    decreases walks, 0
  {
    var w, from := walks[j], After(st, walks[..j]);
    assert 0 < j ==> walks[..j][j - 1] == walks[j - 1];
    assert walks[..j + 1][j] == w && |w.before.loops| == |from.loops|;
    hide IsWalk, EvalBody, OpenTurn, Source.Item, Source.More;
    WalkIsEval(env, w);
    assert Kept(w.before, w.c.st);
  }

  /** The turns from `j` on. */
  lemma {:induction false} LoopIsTurns(env: Env, node: Node, name: Option<string>, source: Source, st: State,
                                       walks: seq<Walk>, j: nat, c: Collected)
    requires IsFor(node) && |st.loops| > 0 && j <= |walks| && IsLoop(env, node, name, source, st, walks, c)
    requires |st.loops| <= |After(st, walks[..j]).loops|
    requires 0 < j ==> !walks[j - 1].c.ending.Raised? && walks[j - 1].c.ending != Stopped(Break)
    ensures c == EvalTurns(env, node.id, name, node.body, source, |st.loops| - 1, j, TextBefore(walks, j),
                           After(st, walks[..j]))
    decreases walks, 1, |walks| - j
  {
    if j < |walks| {
      var w := walks[j];
      TurnIsEval(env, node, name, source, st, walks, j);
      hide IsTurn, EvalBody, OpenTurn, Source.Item, Source.More, Source.Resume;
      if !w.c.ending.Raised? && w.c.ending != Stopped(Break) {
        LoopIsTurns(env, node, name, source, st, walks, j + 1, c);
      } else {
        assert j == |walks| - 1;
      }
    } else {
      hide OpenTurn, IsTurn, Source.Item, Source.More, Source.Resume, EvalBody;
      assert walks[..j] == walks;
    }
  }

  lemma {:induction false} ArrayLoopIsEval(env: Env, node: Node, st: State, r: Outcome, walks: seq<Walk>)
    requires node.ForArray? && |st.loops| > 0 && IsArrayLoop(env, node, st, r, walks)
    ensures r == EvalForArray(env, node, st)
    decreases walks, 2
  {
    hide IsLoop, IsBlock, EvalTurns, EvalBlock, EvalAttributes, EvalExpr, Elements;
    var bounds, v := EvalAttributes(env, node.attributes, 0, MAX_INT, st), EvalExpr(env, node.source, st);
    if bounds.Some? && v.Some? {
      var items := Elements(env, v.value, st);
      var name := env.describe(node.source, st.vars, st.loops, st.depth);
      if items == [] {
        if node.otherwise.Else? {
          BlockIsEval(env, node.otherwise.nodes, st, r, walks);
        }
      } else if name.Some? {
        var named := Some(node.id + "-" + name.value);
        var source := Items(items, bounds.value.0, bounds.value.1);
        var st1 := st.(loops := st.loops[|st.loops| - 1 := Named(named)]);
        var c :| IsLoop(env, node, named, source, st1, walks, c)
          && r == if c.ending.Raised? then Thrown(c.ending.error, c.st) else Done(Text(c.text), c.st);
        LoopIsTurns(env, node, named, source, st1, walks, 0, c);
      }
    }
  }

  lemma {:induction false} RangeLoopIsEval(env: Env, node: Node, st: State, r: Outcome, walks: seq<Walk>)
    requires node.ForRange? && |st.loops| > 0 && IsRangeLoop(env, node, st, r, walks)
    ensures r == EvalForRange(env, node, st)
    decreases walks, 2
  {
    hide IsLoop, EvalTurns, EvalAttributes, EvalNumber;
    var bounds := EvalAttributes(env, node.attributes, 0, MAX_INT, st);
    var from, to := EvalNumber(env, node.from, st), EvalNumber(env, node.to, st);
    if bounds.Some? && from.Some? && to.Some? {
      var source := Range(Wrap(from.value + bounds.value.0), to.value, Wrap(to.value - from.value), bounds.value.1);
      var c :| IsLoop(env, node, None, source, st, walks, c) && r == Done(Text(c.text), c.st);
      LoopIsTurns(env, node, None, source, st, walks, 0, c);
    }
  }

  /** A node that has a trace gives what the trace says: the traces are exactly the renderings. */
  lemma {:induction false} VisitIsEval(env: Env, v: Visit)
    requires IsVisit(env, v)
    ensures v.result == Eval(env, v.node, v.before)
    decreases v, 1
  {
    hide IsBlock, IsChosen, IsArrayLoop, IsRangeLoop, CloseLoop;
    hide EvalBlock, EvalIf, EvalCase, EvalForArray, EvalForRange;
    var st := v.before;
    match v.node {
      case Leaf(e) =>
      case Block(nodes) => BlockIsEval(env, nodes, st, v.result, v.walks);
      case If(branches, negated) => ChosenIsIf(env, branches, negated, st, v.result, v.walks);
      case Case(subject, parts) =>
        var x := EvalExpr(env, subject, st);
        if x.None? {
          NothingElse(env, st, v.result, v.walks);
        } else {
          ChosenIsCase(env, x.value, parts, st, v.result, v.walks);
        }
      case ForArray(_, _, _, _, _) =>
        var r :| IsArrayLoop(env, v.node, OpenLoop(st), r, v.walks) && v.result == Closed(r, st);
        ArrayLoopIsEval(env, v.node, OpenLoop(st), r, v.walks);
        assert Eval(env, v.node, st) == EvalFor(env, v.node, st);
      case ForRange(_, _, _, _, _) =>
        var r :| IsRangeLoop(env, v.node, OpenLoop(st), r, v.walks) && v.result == Closed(r, st);
        RangeLoopIsEval(env, v.node, OpenLoop(st), r, v.walks);
        assert Eval(env, v.node, st) == EvalFor(env, v.node, st);
      case Include(name, with) => IncludeIsEval(env, v, name, with);
      case Assign(id, e) =>
      case Capture(id, body) =>
        var r :| IsBlock(env, body, st, r, v.walks)
          && v.result == if r.Done? then Done(Nil, Put(r.st, id, r.value)) else r;
        BlockIsEval(env, body, st, r, v.walks);
    }
  }

  lemma NothingElse(env: Env, st: State, r: Outcome, walks: seq<Walk>)
    requires IsChosen(env, Fails, Nil, st, r, walks)
    ensures r == Thrown(Failed, st)
  {
  }

  lemma {:induction false} IncludeIsEval(env: Env, v: Visit, name: Name, with: Option<string>)
    requires IsVisit(env, v) && v.node == Node.Include(name, with)
    ensures v.result == Eval(env, v.node, v.before)
    decreases v, 0
  {
    hide IsBlock, EvalBlock, Path;
    var st := v.before;
    assert Eval(env, v.node, st) == EvalInclude(env, name, with, st);
    var nodes := Included(env, name);
    if Depth(st) < MAX_DEPTH && nodes.Some? {
      var st1 := Descend(st, name, with);
      var r :| IsBlock(env, nodes.value, st1, r, v.walks) && v.result == Surfaced(env, r);
      BlockIsEval(env, nodes.value, st1, r, v.walks);
      assert EvalTemplate(env, nodes.value, st1).Done? <==> r.Done?;
    }
  }
}
