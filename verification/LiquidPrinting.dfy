/** What a template prints: the texts of the leaves it reaches, in order. */
module LiquidPrinting {
  import opened LiquidSyntax
  import opened LiquidEval
  import opened LiquidTraces
  import Loops = LiquidLoops
  import opened Options
  import Seqs

  // ------------------------------------------------------------------------- leaves

  /** How many pieces are appended before one finds the text full. */
  function HowMany(env: Env, text: string, pieces: seq<string>, i: nat): (j: nat)
    requires i <= |pieces|
    ensures i <= j <= |pieces|
    decreases |pieces| - i
  {
    if i == |pieces| || Full(env, text + Joined(pieces[..i])) then i else HowMany(env, text, pieces, i + 1)
  }

  /** The texts of the leaves below a node that returned, in the order they are reached. */
  function LeavesOf(env: Env, place: Place, v: Visit): seq<string>
    decreases v, 0
  {
    if v.result.Thrown? || IsStatement(v.result.value) then []
    else match v.node
      case Leaf(_) => Said(env, place, v.result.value)
      case Assign(_, _) => []
      case Capture(_, _) => []
      case _ => LeavesOfWalks(env, v.walks)
  }

  /** A block that was stopped prints nothing; a turn of a loop keeps what it printed. */
  function LeavesOfWalks(env: Env, walks: seq<Walk>): seq<string>
    decreases walks, 0
  {
    if walks == [] then []
    else
      var w := walks[|walks| - 1];
      LeavesOfWalks(env, walks[..|walks| - 1])
      + if w.place.InBlock? && !w.c.ending.Ran? then [] else LeavesOfWalk(env, w)
  }

  /** The last child of a body that became too long counts as far as it was printed. */
  function LeavesOfWalk(env: Env, w: Walk): seq<string>
    decreases w, 1
  {
    var n := |w.visits|;
    if w.c.ending.Ran? || n == 0 then LeavesOfVisits(env, w.place, w.visits)
    else
      LeavesOfVisits(env, w.place, w.visits[..n - 1])
      + KeptOf(env, w.place, TextAfter(env, w.place, w.text, w.visits[..n - 1]), w.visits[n - 1].result)
  }

  /** What is left of the child that ended the body. */
  function KeptOf(env: Env, place: Place, text: string, r: Outcome): seq<string> {
    if r.Thrown? then [] else Said(env, place, r.value)[..HowMany(env, text, Said(env, place, r.value), 0)]
  }

  function LeavesOfVisits(env: Env, place: Place, visits: seq<Visit>): seq<string>
    decreases visits, 0
  {
    if visits == [] then []
    else LeavesOfVisits(env, place, visits[..|visits| - 1]) + LeavesOf(env, place, visits[|visits| - 1])
  }

  // ---------------------------------------------------------------- they are the text

  lemma {:induction false} JoinedAppend(a: seq<string>, b: seq<string>)
    ensures Joined(a + b) == Joined(a) + Joined(b)
    decreases |b|
  {
    if b == [] {
      assert a + b == a;
    } else {
      var init, last := b[..|b| - 1], b[|b| - 1];
      assert (a + b)[..|a + b| - 1] == a + init;
      JoinedAppend(a, init);
      Seqs.Assoc(Joined(a), Joined(init), last);
    }
  }

  lemma JoinedOne(s: string)
    ensures Joined([s]) == s
  {
    assert [s][..0] == [];
  }

  lemma {:induction false} HowManyFit(env: Env, text: string, pieces: seq<string>, i: nat, j: int)
    requires i <= j && IsCut(env, text, pieces, j)
    ensures HowMany(env, text, pieces, i) == j
    decreases j - i
  {
    if i < j {
      HowManyFit(env, text, pieces, i + 1, j);
    }
  }

  /** In words of the trace alone: a child prints the leaves below it, a body those of its children. */
  lemma {:induction false} VisitPrintsLeaves(env: Env, place: Place, v: Visit)
    requires IsVisit(env, v)
    ensures v.result.Done? ==> Joined(Said(env, place, v.result.value)) == Joined(LeavesOf(env, place, v))
    decreases v, 1
  {
    hide IsBlock, IsArrayLoop, IsRangeLoop, LeavesOfWalks, Said, Joined;
    if v.result.Done? {
      SaidText(env, place, v.result.value);
    }
    if v.result.Done? && !IsStatement(v.result.value) {
      var st := v.before;
      match v.node {
        case Leaf(_) =>
        case Assign(_, _) =>
        case Capture(_, _) =>
        case Block(nodes) => BlockPrintsLeaves(env, nodes, st, v.result, v.walks);
        case If(branches, negated) =>
          var nothing := if negated then Text("") else Nil;
          ChoicePrintsLeaves(env, FirstBranch(env, branches, negated, st), nothing, st, v.result, v.walks);
        case Case(subject, parts) =>
          var x := EvalExpr(env, subject, st);
          var choice := if x.None? then Fails else FirstWhen(env, x.value, parts, true, false, st);
          ChoicePrintsLeaves(env, choice, Nil, st, v.result, v.walks);
        case ForArray(_, _, _, _, _) =>
          var r :| IsArrayLoop(env, v.node, OpenLoop(st), r, v.walks) && v.result == Closed(r, st);
          ArrayPrintsLeaves(env, v.node, OpenLoop(st), r, v.walks);
        case ForRange(_, _, _, _, _) =>
          var r :| IsRangeLoop(env, v.node, OpenLoop(st), r, v.walks) && v.result == Closed(r, st);
          RangePrintsLeaves(env, v.node, OpenLoop(st), r, v.walks);
        case Include(name, with) =>
          var nodes := Included(env, name).value;
          var r :| IsBlock(env, nodes, Descend(st, name, with), r, v.walks) && v.result == Surfaced(env, r);
          BlockPrintsLeaves(env, nodes, Descend(st, name, with), r, v.walks);
      }
    }
  }

  /** The text of what a node other than a leaf can give. */
  lemma SaidText(env: Env, place: Place, v: Value)
    ensures v.Text? ==> Joined(Said(env, place, v)) == v.s
    ensures v.Nil? ==> Joined(Said(env, place, v)) == ""
    ensures IsStatement(v) ==> Said(env, place, v) == []
    ensures Joined([]) == ""
  {
    if v.Text? {
      JoinedOne(v.s);
    }
    JoinedOne("");
  }

  /** The text of a block, a loop, or nothing. */
  function TextOf(v: Value): string { if v.Text? then v.s else "" }

  lemma {:induction false} BlockPrintsLeaves(env: Env, nodes: seq<Node>, st: State, r: Outcome, walks: seq<Walk>)
    requires IsBlock(env, nodes, st, r, walks)
    ensures r.Done? ==> Joined(LeavesOfWalks(env, walks)) == TextOf(r.value) && (r.value.Text? || IsStatement(r.value))
    decreases walks, 1
  {
    var w := walks[0];
    assert walks[..0] == [];
    WalkPrintsLeaves(env, w);
    StoppedByStatement(env, w);
    hide IsWalk, LeavesOfWalk;
    assert LeavesOfWalks(env, walks) == [] + if w.place.InBlock? && !w.c.ending.Ran? then [] else LeavesOfWalk(env, w);
    assert [] + LeavesOfWalk(env, w) == LeavesOfWalk(env, w) && Joined([]) == "";
  }

  lemma StoppedByStatement(env: Env, w: Walk)
    requires IsWalk(env, w)
    ensures w.c.ending.Stopped? ==> IsStatement(w.c.ending.statement)
  {
    if w.c.ending.Stopped? {
      assert IsChild(env, w, |w.visits| - 1);
    }
  }

  lemma {:induction false} ChoicePrintsLeaves(env: Env, choice: Choice, nothing: Value, st: State, r: Outcome,
                                              walks: seq<Walk>)
    requires IsChosen(env, choice, nothing, st, r, walks) && (nothing.Nil? || nothing == Text(""))
    ensures r.Done? ==> Joined(LeavesOfWalks(env, walks)) == TextOf(r.value)
    ensures r.Done? ==> r.value.Text? || IsStatement(r.value) || r.value.Nil?
    decreases walks, 2
  {
    hide IsBlock;
    match choice {
      case Renders(nodes) => BlockPrintsLeaves(env, nodes, st, r, walks);
      case Nothing => assert LeavesOfWalks(env, []) == [] && Joined([]) == "";
      case Fails =>
    }
  }

  lemma {:induction false} WalkPrintsLeaves(env: Env, w: Walk)
    requires IsWalk(env, w)
    ensures w.c.text == w.text + Joined(LeavesOfWalk(env, w))
    decreases w, 2
  {
    var n := |w.visits|;
    if w.c.ending.Ran? {
      VisitsPrintLeaves(env, w, n);
      assert w.visits[..n] == w.visits;
    } else {
      VisitsPrintLeaves(env, w, n - 1);
      assert IsChild(env, w, n - 1);
      LastPrints(env, w);
      hide IsWalk, IsChild, LeavesOfVisits, KeptOf, TextAfter;
      var before, last := LeavesOfVisits(env, w.place, w.visits[..n - 1]),
        KeptOf(env, w.place, TextAfter(env, w.place, w.text, w.visits[..n - 1]), w.visits[n - 1].result);
      JoinedAppend(before, last);
      Seqs.Assoc(w.text, Joined(before), Joined(last));
    }
  }

  lemma LastPrints(env: Env, w: Walk)
    requires w.visits != [] && !w.c.ending.Ran?
    requires var n := |w.visits| - 1;
      EndsWith(env, w.place, TextAfter(env, w.place, w.text, w.visits[..n]), w.visits[n].result, w.c)
    ensures var n := |w.visits| - 1; var text := TextAfter(env, w.place, w.text, w.visits[..n]);
      w.c.text == text + Joined(KeptOf(env, w.place, text, w.visits[n].result))
  {
    hide TextAfter, Pieces, Full;
    var n := |w.visits| - 1;
    var text, r := TextAfter(env, w.place, w.text, w.visits[..n]), w.visits[n].result;
    assert text + Joined([]) == text;
    if r.Done? && !IsStatement(r.value) && Printable(env, w.place, r.value) {
      var pieces := Said(env, w.place, r.value);
      var j :| IsCut(env, text, pieces, j) && w.c.text == text + Joined(pieces[..j]);
      HowManyFit(env, text, pieces, 0, j);
    }
  }

  lemma {:induction false} VisitsPrintLeaves(env: Env, w: Walk, k: nat)
    requires IsWalk(env, w) && k <= |w.visits|
    ensures TextAfter(env, w.place, w.text, w.visits[..k])
         == w.text + Joined(LeavesOfVisits(env, w.place, w.visits[..k]))
    decreases w, 0, k
  {
    if k == 0 {
      assert w.visits[..0] == [];
    } else {
      assert IsChild(env, w, k - 1);
      var v, init := w.visits[k - 1], w.visits[..k - 1];
      assert w.visits[..k][..k - 1] == init && w.visits[..k][k - 1] == v;
      hide IsWalk, IsChild, IsVisit, Said, LeavesOf;
      VisitsPrintLeaves(env, w, k - 1);
      VisitPrintsLeaves(env, w.place, v);
      JoinedAppend(LeavesOfVisits(env, w.place, init), LeavesOf(env, w.place, v));
      Seqs.Assoc(w.text, Joined(LeavesOfVisits(env, w.place, init)), Joined(LeavesOf(env, w.place, v)));
      assert LeavesOfVisits(env, w.place, w.visits[..k])
          == LeavesOfVisits(env, w.place, init) + LeavesOf(env, w.place, v);
      if v.result.Thrown? {
        assert Joined([]) == "";
      }
    }
  }

  lemma {:induction false} TurnsPrintLeaves(env: Env, node: Node, name: Option<string>, source: Source, st: State,
                                            walks: seq<Walk>, j: nat)
    requires IsFor(node) && |st.loops| > 0 && j <= |walks|
    requires forall i :: 0 <= i < |walks| ==> IsTurn(env, node, name, source, st, walks, i)
    ensures TextBefore(walks, j) == Joined(LeavesOfWalks(env, walks[..j]))
    decreases walks, 0, j
  {
    if j == 0 {
      assert walks[..0] == [];
    } else {
      assert IsTurn(env, node, name, source, st, walks, j - 1);
      var w, init := walks[j - 1], walks[..j - 1];
      assert walks[..j][..j - 1] == init && walks[..j][j - 1] == w && !w.place.InBlock?;
      assert w.text == TextBefore(walks, j - 1) && IsWalk(env, w);
      hide IsTurn, IsWalk, LeavesOfWalk;
      TurnsPrintLeaves(env, node, name, source, st, walks, j - 1);
      WalkPrintsLeaves(env, w);
      JoinedAppend(LeavesOfWalks(env, init), LeavesOfWalk(env, w));
      assert LeavesOfWalks(env, walks[..j]) == LeavesOfWalks(env, init) + LeavesOfWalk(env, w);
    }
  }

  lemma {:induction false} ArrayPrintsLeaves(env: Env, node: Node, st: State, r: Outcome, walks: seq<Walk>)
    requires node.ForArray? && |st.loops| > 0 && IsArrayLoop(env, node, st, r, walks)
    ensures r.Done? ==> Joined(LeavesOfWalks(env, walks)) == TextOf(r.value)
    ensures r.Done? ==> r.value.Text? || IsStatement(r.value) || r.value.Nil?
    decreases walks, 2
  {
    hide IsBlock, IsTurn, EvalAttributes, EvalExpr, Elements;
    if r.Done? {
      var items := Elements(env, EvalExpr(env, node.source, st).value, st);
      if items == [] {
        if node.otherwise.Else? {
          BlockPrintsLeaves(env, node.otherwise.nodes, st, r, walks);
        } else {
          assert LeavesOfWalks(env, []) == [] && Joined([]) == "";
        }
      } else {
        var bounds := EvalAttributes(env, node.attributes, 0, MAX_INT, st).value;
        var named := Some(node.id + "-" + env.describe(node.source, st.vars, st.loops, st.depth).value);
        TurnsPrintLeaves(env, node, named, Items(items, bounds.0, bounds.1),
                         st.(loops := st.loops[|st.loops| - 1 := Named(named)]), walks, |walks|);
        assert walks[..|walks|] == walks;
      }
    }
  }

  lemma {:induction false} RangePrintsLeaves(env: Env, node: Node, st: State, r: Outcome, walks: seq<Walk>)
    requires node.ForRange? && |st.loops| > 0 && IsRangeLoop(env, node, st, r, walks)
    ensures r.Done? ==> Joined(LeavesOfWalks(env, walks)) == TextOf(r.value) && r.value.Text?
    decreases walks, 2
  {
    hide IsTurn, EvalAttributes, EvalNumber;
    var bounds := EvalAttributes(env, node.attributes, 0, MAX_INT, st);
    var from, to := EvalNumber(env, node.from, st), EvalNumber(env, node.to, st);
    if bounds.Some? && from.Some? && to.Some? {
      var source := Range(Wrap(from.value + bounds.value.0), to.value, Wrap(to.value - from.value), bounds.value.1);
      TurnsPrintLeaves(env, node, None, source, st, walks, |walks|);
      assert walks[..|walks|] == walks;
    } else {
      assert LeavesOfWalks(env, []) == [] && Joined([]) == "";
    }
  }

  // ------------------------------------------------------------------------ results

  /**
   * Every template has a trace, and if it does not throw it prints the texts of the leaves it reaches, in
   * order; when a statement reaches its root, nothing.
   */
  lemma TemplatePrintsLeaves(env: Env, nodes: seq<Node>, st: State) returns (w: Walk)
    ensures IsWalk(env, w) && w.place == InBlock && w.nodes == nodes && w.text == "" && w.before == st
    ensures var r := EvalTemplate(env, nodes, st);
      && r.st == w.c.st
      && (r.Thrown? <==> w.c.ending.Raised?)
      && (r.Thrown? ==> r.error == w.c.ending.error)
      && (r.Done? ==> r.value == Text(if w.c.ending.Ran? then Joined(LeavesOfWalk(env, w)) else ""))
  {
    hide IsWalk, EvalTemplate, EvalBody, LeavesOfWalk, Joined;
    w := WalkOf(env, InBlock, nodes, "", st);
    WalkPrintsLeaves(env, w);
    StoppedByStatement(env, w);
    TemplateOfBody(env, nodes, st);
    var leaves := Joined(LeavesOfWalk(env, w));
    assert "" + leaves == leaves;
  }

  /** The root of a template is a block whose statement prints as nothing. */
  lemma TemplateOfBody(env: Env, nodes: seq<Node>, st: State)
    ensures var c, r := EvalBody(env, InBlock, nodes, "", st), EvalTemplate(env, nodes, st);
      && r.st == c.st
      && (r.Thrown? <==> c.ending.Raised?)
      && (r.Thrown? ==> r.error == c.ending.error)
      && (c.ending.Ran? ==> r.value == Text(c.text))
      && (c.ending.Stopped? ==> r.value == Text(Show(env, c.ending.statement)))
  {
    hide EvalBody;
  }

  /** The leaf of a text, and the template of some. */
  function TextLeaves(texts: seq<string>): (nodes: seq<Node>)
    ensures |nodes| == |texts| && forall k :: 0 <= k < |texts| ==> nodes[k] == Leaf(Atom(Text(texts[k])))
  {
    seq(|texts|, k requires 0 <= k < |texts| => Leaf(Atom(Text(texts[k]))))
  }

  /** Below the limit, a body of text leaves prints their concatenation. */
  lemma {:induction false} TextLeavesPrint(env: Env, place: Place, texts: seq<string>, more: seq<Node>, text: string,
                                           st: State)
    requires FitUpTo(env, text, texts, |texts|)
    ensures exists longest: nat ::
      EvalBody(env, place, TextLeaves(texts) + more, text, st)
      == EvalBody(env, place, more, text + Joined(texts), st.(longest := longest))
    decreases |texts|
  {
    hide EvalBody;
    if texts == [] {
      assert TextLeaves(texts) + more == more && text + "" == text && st.(longest := st.longest) == st;
    } else {
      var n := |texts| - 1;
      var init, last := texts[..n], texts[n];
      assert TextLeaves(texts) + more == TextLeaves(init) + ([TextLeaves(texts)[n]] + more);
      forall i | 0 <= i < n ensures !Full(env, text + Joined(init[..i])) {
        assert init[..i] == texts[..i];
      }
      TextLeavesPrint(env, place, init, [TextLeaves(texts)[n]] + more, text, st);
      var longest: nat :| EvalBody(env, place, TextLeaves(texts) + more, text, st)
        == EvalBody(env, place, [TextLeaves(texts)[n]] + more, text + Joined(init), st.(longest := longest));
      var st1 := st.(longest := longest);
      OneTextLeaf(env, place, last, more, text + Joined(init), st1);
      Seqs.Assoc(text, Joined(init), last);
    }
  }

  lemma OneTextLeaf(env: Env, place: Place, s: string, more: seq<Node>, text: string, st: State)
    requires !Full(env, text)
    ensures EvalBody(env, place, [Leaf(Atom(Text(s)))] + more, text, st)
         == EvalBody(env, place, more, text + s, Widened(env, st, Text(s)))
  {
    var nodes := [Leaf(Atom(Text(s)))] + more;
    assert nodes[0] == Leaf(Atom(Text(s))) && nodes[1..] == more;
    assert Eval(env, nodes[0], st) == Done(Text(s), Widened(env, st, Text(s)));
    assert Pieces(env, place, Text(s)) == Some([s]);
    assert AppendAll(env, text, [s]) == Appended(text + s, true) by { assert [s][1..] == []; }
  }

  /** A template of texts below the limit renders to their concatenation. */
  lemma TextTemplate(env: Env, texts: seq<string>, st: State)
    requires FitUpTo(env, "", texts, |texts|)
    ensures EvalTemplate(env, TextLeaves(texts), st).Done?
    ensures EvalTemplate(env, TextLeaves(texts), st).value == Text(Joined(texts))
  {
    TextLeavesPrint(env, InBlock, texts, [], "", st);
    assert TextLeaves(texts) + [] == TextLeaves(texts) && "" + Joined(texts) == Joined(texts);
  }

  /** An array prints its elements one after another. */
  lemma ArrayIsPrintedByElement(env: Env, items: seq<Value>, st: State)
    requires FitUpTo(env, "", Shows(env, items), |items|)
    ensures EvalTemplate(env, [Leaf(Atom(Array(items)))], st).Done?
    ensures EvalTemplate(env, [Leaf(Atom(Array(items)))], st).value == Text(Joined(Shows(env, items)))
  {
    assert Said(env, InBlock, Array(items)) == Shows(env, items);
    OneLeaf(env, Atom(Array(items)), "", st);
    hide EvalBody;
    assert "" + Joined(Shows(env, items)) == Joined(Shows(env, items));
  }

  /** The text of a value with lists inside lists flattened. */
  function FlatText(env: Env, v: Value): string
    decreases v, 0
  {
    match v
    case Nil => ""
    case Array(items) => FlatTexts(env, items)
    case List(items) => FlatTexts(env, items)
    case _ => Show(env, v)
  }

  function FlatTexts(env: Env, items: seq<Value>): string
    decreases items, 0
  {
    if items == [] then "" else FlatTexts(env, items[..|items| - 1]) + FlatText(env, items[|items| - 1])
  }

  lemma {:induction false} FlatTextsFrom(env: Env, items: seq<Value>)
    requires items != []
    ensures FlatTexts(env, items) == FlatText(env, items[0]) + FlatTexts(env, items[1..])
    decreases |items|
  {
    var n := |items| - 1;
    if n == 0 {
      assert items[..0] == [] && items[1..] == [];
      assert "" + FlatText(env, items[0]) == FlatText(env, items[0]) + "";
    } else {
      FlatTextsFrom(env, items[..n]);
      assert items[..n][0] == items[0] && items[..n][1..] == items[1..][..n - 1] && items[1..][n - 1] == items[n];
      Seqs.Assoc(FlatText(env, items[0]), FlatTexts(env, items[1..][..n - 1]), FlatText(env, items[n]));
    }
  }

  /** Without a limit, a loop prints a list flattened. */
  lemma {:induction false} ListIsFlattened(env: Env, v: Value)
    requires env.limit <= 0
    ensures AsString(env, v) == Some(FlatText(env, v))
    decreases v, 1
  {
    match v {
      case Array(items) =>
        JoinIsFlattened(env, items, "");
        assert "" + FlatTexts(env, items) == FlatTexts(env, items);
      case List(items) =>
        JoinIsFlattened(env, items, "");
        assert "" + FlatTexts(env, items) == FlatTexts(env, items);
      case _ =>
    }
  }

  lemma {:induction false} JoinIsFlattened(env: Env, items: seq<Value>, text: string)
    requires env.limit <= 0
    ensures Join(env, items, text) == Some(text + FlatTexts(env, items))
    decreases items, 0
  {
    if items == [] {
      assert text + "" == text;
    } else {
      ListIsFlattened(env, items[0]);
      JoinIsFlattened(env, items[1..], text + FlatText(env, items[0]));
      FlatTextsFrom(env, items);
      Seqs.Assoc(text, FlatText(env, items[0]), FlatTexts(env, items[1..]));
    }
  }

  // ------------------------------------------------------------------ names and values

  /** A lookup of `name`. */
  ghost predicate Reads(env: Env, e: Expr, name: string) {
    forall st :: EvalExpr(env, e, st) == Some(Get(st, name))
  }

  /** A value printed by itself, if it is not a statement. */
  ghost predicate PrintsAlone(env: Env, v: Value) {
    !IsStatement(v) && FitUpTo(env, "", Said(env, InBlock, v), |Said(env, InBlock, v)|)
  }

  lemma OneLeaf(env: Env, e: Expr, text: string, st: State)
    requires EvalExpr(env, e, st).Some?
    requires var v := EvalExpr(env, e, st).value;
      !IsStatement(v) && FitUpTo(env, text, Said(env, InBlock, v), |Said(env, InBlock, v)|)
    ensures var c := EvalBody(env, InBlock, [Leaf(e)], text, st);
      c.ending.Ran? && c.text == text + Joined(Said(env, InBlock, EvalExpr(env, e, st).value))
  {
    var v := EvalExpr(env, e, st).value;
    CollectIs(env, InBlock, v, text, Widened(env, st, v));
    hide Collect, EvalExpr, Said, FitUpTo;
    assert Eval(env, Leaf(e), st) == Done(v, Widened(env, st, v));
    assert [Leaf(e)][1..] == [];
  }

  /** After an assignment, a leaf that reads the name prints the value assigned. */
  lemma AssignedIsPrinted(env: Env, x: Name, e: Expr, lookup: Expr, st: State)
    requires EvalExpr(env, e, st).Some? && Reads(env, lookup, x) && PrintsAlone(env, EvalExpr(env, e, st).value)
    requires !Full(env, "")
    ensures EvalTemplate(env, [Assign(x, e), Leaf(lookup)], st).Done?
    ensures EvalTemplate(env, [Assign(x, e), Leaf(lookup)], st).value
         == Text(Joined(Said(env, InBlock, EvalExpr(env, e, st).value)))
  {
    var v, nodes := EvalExpr(env, e, st).value, [Assign(x, e), Leaf(lookup)];
    var st1 := Put(st, x, v);
    assert EvalExpr(env, lookup, st1) == Some(v);
    OneLeaf(env, lookup, "", st1);
    assert nodes[1..] == [Leaf(lookup)];
    hide EvalExpr, Said, FitUpTo;
    assert Eval(env, nodes[0], st) == Done(Text(""), st1);
    assert Collect(env, InBlock, Text(""), "") == Printed("", Ran) by {
      assert [""][1..] == [] && "" + "" == "";
    }
    assert EvalBody(env, InBlock, nodes, "", st) == EvalBody(env, InBlock, [Leaf(lookup)], "", st1);
    hide EvalBody;
    assert "" + Joined(Said(env, InBlock, v)) == Joined(Said(env, InBlock, v));
  }

  /** `include ... with` binds the value to the template's own name: a leaf that reads it prints the value. */
  lemma IncludedWithIsPrinted(env: Env, name: Name, value: string, lookup: Expr, st: State)
    requires Included(env, name) == Some([Leaf(lookup)]) && env.read(Path(name)).Some? && Reads(env, lookup, name)
    requires Depth(st) < MAX_DEPTH && !Full(env, "")
    ensures EvalInclude(env, name, Some(value), st).Done?
    ensures EvalInclude(env, name, Some(value), st).value == Text(value)
  {
    var st1 := Descend(st, name, Some(value));
    assert EvalExpr(env, lookup, st1) == Some(Text(value));
    assert Said(env, InBlock, Text(value)) == [value] && FitUpTo(env, "", [value], 1) by {
      assert [value][..0] == [];
    }
    JoinedOne(value);
    OneLeaf(env, lookup, "", st1);
    hide EvalBody, EvalExpr, Path;
    assert "" + value == value;
    var c := EvalBody(env, InBlock, [Leaf(lookup)], "", st1);
    assert EvalBlock(env, [Leaf(lookup)], st1) == Done(Text(value), c.st);
    assert EvalTemplate(env, [Leaf(lookup)], st1) == Done(Text(value), c.st);
  }

  // ------------------------------------------------------------------------- breaks

  const BREAK: Node := Leaf(Atom(Break))

  predicate AlwaysTrue(env: Env, e: Expr, st: State) {
    EvalExpr(env, e, st).Some? && Truthy(EvalExpr(env, e, st).value)
  }

  /** A conditional that prints some texts and then breaks. */
  function BreakingIf(condition: Expr, dropped: seq<string>): Node {
    If([Branch(condition, TextLeaves(dropped) + [BREAK])], false)
  }

  lemma BreakStopsBlock(env: Env, texts: seq<string>, st: State)
    requires FitUpTo(env, "", texts, |texts|)
    ensures EvalBlock(env, TextLeaves(texts) + [BREAK], st).Done?
    ensures EvalBlock(env, TextLeaves(texts) + [BREAK], st).value == Break
  {
    TextLeavesPrint(env, InBlock, texts, [BREAK], "", st);
    var longest: nat :| EvalBody(env, InBlock, TextLeaves(texts) + [BREAK], "", st)
      == EvalBody(env, InBlock, [BREAK], "" + Joined(texts), st.(longest := longest));
    var st1 := st.(longest := longest);
    assert [BREAK][0] == BREAK && Eval(env, BREAK, st1) == Done(Break, Widened(env, st1, Break));
    assert EvalBody(env, InBlock, [BREAK], "" + Joined(texts), st1).ending == Stopped(Break);
  }

  lemma BreakingIfBreaks(env: Env, condition: Expr, dropped: seq<string>, st: State)
    requires AlwaysTrue(env, condition, st) && FitUpTo(env, "", dropped, |dropped|)
    ensures Eval(env, BreakingIf(condition, dropped), st).Done?
    ensures Eval(env, BreakingIf(condition, dropped), st).value == Break
  {
    hide EvalBlock;
    BreakStopsBlock(env, dropped, st);
    var branches := [Branch(condition, TextLeaves(dropped) + [BREAK])];
    assert Eval(env, If(branches, false), st) == EvalIf(env, branches, false, st);
  }

  lemma BreakingBody(env: Env, texts: seq<string>, condition: Expr, dropped: seq<string>, after: seq<Node>, st: State)
    requires forall s :: AlwaysTrue(env, condition, s)
    requires FitUpTo(env, "", texts, |texts|) && FitUpTo(env, "", dropped, |dropped|)
    ensures var c := EvalBody(env, InArray, TextLeaves(texts) + ([BreakingIf(condition, dropped)] + after), "", st);
      c.text == Joined(texts) && c.ending == Stopped(Break)
  {
    hide FitUpTo, EvalBlock, AlwaysTrue, BreakingIf;
    var rest := [BreakingIf(condition, dropped)] + after;
    TextLeavesPrint(env, InArray, texts, rest, "", st);
    var longest: nat :| EvalBody(env, InArray, TextLeaves(texts) + rest, "", st)
      == EvalBody(env, InArray, rest, "" + Joined(texts), st.(longest := longest));
    var st1 := st.(longest := longest);
    BreakingIfBreaks(env, condition, dropped, st1);
    assert rest[0] == BreakingIf(condition, dropped);
    hide Eval;
    assert "" + Joined(texts) == Joined(texts);
  }

  /**
   * A `break` in a conditional in a loop leaves the texts before the conditional, in the first turn, and
   * nothing else: neither what the conditional had printed nor what comes after it.
   */
  lemma BreakLeavesTextsBefore(env: Env, node: Node, texts: seq<string>, condition: Expr, dropped: seq<string>,
                               after: seq<Node>, st: State)
    requires node.ForArray? && node.attributes == []
    requires node.body == TextLeaves(texts) + ([BreakingIf(condition, dropped)] + after)
    requires var st1, v := OpenLoop(st), EvalExpr(env, node.source, OpenLoop(st));
      && v.Some? && Elements(env, v.value, st1) != []
      && env.describe(node.source, st1.vars, st1.loops, st1.depth).Some?
    requires forall s :: AlwaysTrue(env, condition, s)
    requires FitUpTo(env, "", texts, |texts|) && FitUpTo(env, "", dropped, |dropped|)
    ensures Eval(env, node, st).Done? && Eval(env, node, st).value == Text(Joined(texts))
  {
    hide FitUpTo, EvalBody, AlwaysTrue, BreakingIf, Elements, EvalExpr, TextLeaves;
    var st1 := OpenLoop(st);
    var items := Elements(env, EvalExpr(env, node.source, st1).value, st1);
    var named := Some(node.id + "-" + env.describe(node.source, st1.vars, st1.loops, st1.depth).value);
    var k, source := |st.loops|, Items(items, 0, MAX_INT);
    var st2 := st1.(loops := st1.loops[k := Named(named)]);
    BreakingBody(env, texts, condition, dropped, after, OpenTurn(st2, node.id, named, source, k, 0, items[0]));
    FirstTurnBreaks(env, node, named, items, k, st2);
    hide EvalTurns, OpenTurn;
    ArrayLoopOfTurns(env, node, st1, items, named);
    hide EvalForArray;
    assert Eval(env, node, st) == EvalFor(env, node, st);
  }

  lemma FirstTurnBreaks(env: Env, node: Node, name: Option<string>, items: seq<Value>, k: nat, st: State)
    requires node.ForArray? && items != [] && k < |st.loops|
    requires var source := Items(items, 0, MAX_INT);
      var c := EvalBody(env, InArray, node.body, "", OpenTurn(st, node.id, name, source, k, 0, items[0]));
      c.ending == Stopped(Break)
    ensures var source := Items(items, 0, MAX_INT);
      var c := EvalTurns(env, node.id, name, node.body, source, k, 0, "", st);
      && !c.ending.Raised?
      && c.text == EvalBody(env, InArray, node.body, "", OpenTurn(st, node.id, name, source, k, 0, items[0])).text
  {
    hide EvalBody, OpenTurn;
  }

  /** A loop over items without attributes is its turns. */
  lemma ArrayLoopOfTurns(env: Env, node: Node, st: State, items: seq<Value>, named: Option<string>)
    requires node.ForArray? && |st.loops| > 0 && node.attributes == [] && items != []
    requires var v, name := EvalExpr(env, node.source, st), env.describe(node.source, st.vars, st.loops, st.depth);
      v.Some? && items == Elements(env, v.value, st) && name.Some? && named == Some(node.id + "-" + name.value)
    ensures var k := |st.loops| - 1;
      var c := EvalTurns(env, node.id, named, node.body, Items(items, 0, MAX_INT), k, 0, "",
                         st.(loops := st.loops[k := Named(named)]));
      EvalForArray(env, node, st) == if c.ending.Raised? then Thrown(c.ending.error, c.st) else Done(Text(c.text), c.st)
  {
    hide EvalTurns, Elements, EvalExpr;
    assert EvalAttributes(env, node.attributes, 0, MAX_INT, st) == Some((0, MAX_INT));
    hide EvalAttributes;
  }

  // ------------------------------------------------------------------------ attributes

  /** The value attribute `i` gives for `key`, if it is one for `key` and a number. */
  function Given(env: Env, attributes: seq<Attribute>, key: string, i: nat, st: State): Option<int>
    requires i < |attributes|
  {
    var v := EvalExpr(env, attributes[i].expr, st);
    if attributes[i].key != key || v.None? || env.number(v.value).None? then None
    else Some(Wrap(env.number(v.value).value))
  }

  /** `n` is what the last attribute for `key` gives, or the default without one. */
  predicate LastGiven(env: Env, attributes: seq<Attribute>, key: string, n: int, default: int, st: State) {
    || (n == default && forall i :: 0 <= i < |attributes| ==> Given(env, attributes, key, i, st) == None)
    || exists i :: 0 <= i < |attributes| && IsLastGiven(env, attributes, key, n, i, st)
  }

  predicate IsLastGiven(env: Env, attributes: seq<Attribute>, key: string, n: int, i: nat, st: State)
    requires i < |attributes|
  {
    && Given(env, attributes, key, i, st) == Some(n)
    && forall j :: i < j < |attributes| ==> Given(env, attributes, key, j, st) == None
  }

  /** The offset is what the last `offset` gives and the limit what the last `limit` does. */
  lemma {:induction false} OffsetAndLimit(env: Env, attributes: seq<Attribute>, offset: int, limit: int, st: State)
    ensures var bounds := EvalAttributes(env, attributes, offset, limit, st);
      && (bounds.None? <==> exists i :: 0 <= i < |attributes| && EvalExpr(env, attributes[i].expr, st).None?)
      && (bounds.Some? ==>
            && LastGiven(env, attributes, "offset", bounds.value.0, offset, st)
            && LastGiven(env, attributes, "limit", bounds.value.1, limit, st))
    decreases |attributes|
  {
    if attributes != [] {
      var rest := attributes[1..];
      var v := EvalExpr(env, attributes[0].expr, st);
      if v.Some? {
        var key, n := attributes[0].key, env.number(v.value);
        var offset', limit' := if n.Some? && key == "offset" then Wrap(n.value) else offset,
          if n.Some? && key == "limit" then Wrap(n.value) else limit;
        OffsetAndLimit(env, rest, offset', limit', st);
        assert forall i :: 0 <= i < |rest| ==> attributes[i + 1] == rest[i];
        var bounds := EvalAttributes(env, attributes, offset, limit, st);
        if bounds.Some? {
          LastGivenMore(env, attributes, "offset", bounds.value.0, offset, offset', st);
          LastGivenMore(env, attributes, "limit", bounds.value.1, limit, limit', st);
        }
        if i :| 0 <= i < |attributes| && EvalExpr(env, attributes[i].expr, st).None? {
          assert rest[i - 1] == attributes[i];
        }
      }
    }
  }

  lemma LastGivenMore(env: Env, attributes: seq<Attribute>, key: string, n: int, default: int, default': int, st: State)
    requires attributes != [] && LastGiven(env, attributes[1..], key, n, default', st)
    requires var first := Given(env, attributes, key, 0, st); default' == if first.Some? then first.value else default
    ensures LastGiven(env, attributes, key, n, default, st)
  {
    var rest := attributes[1..];
    forall i | 0 <= i < |rest| ensures Given(env, attributes, key, i + 1, st) == Given(env, rest, key, i, st) {}
    hide Given;
    if i :| 0 <= i < |rest| && IsLastGiven(env, rest, key, n, i, st) {
      forall j | i + 1 < j < |attributes| ensures Given(env, attributes, key, j, st) == None {
        assert Given(env, rest, key, j - 1, st) == None;
      }
      assert IsLastGiven(env, attributes, key, n, i + 1, st);
    } else if Given(env, attributes, key, 0, st).Some? {
      assert IsLastGiven(env, attributes, key, n, 0, st) by {
        forall j | 0 < j < |attributes| ensures Given(env, attributes, key, j, st) == None {
          assert Given(env, rest, key, j - 1, st) == None;
        }
      }
    } else {
      forall j | 0 < j < |attributes| ensures Given(env, attributes, key, j, st) == None {
        assert Given(env, rest, key, j - 1, st) == None;
      }
    }
  }

  /** So `offset` says which item an array loop prints first, and `limit` how many it prints at most. */
  lemma OffsetMovesLimitCaps(env: Env, node: Node, st: State, items: seq<Value>, offset: nat, limit: nat)
      returns (passes: seq<Loops.Pass>)
    requires node.ForArray? && items != [] && EvalExpr(env, node.source, OpenLoop(st)).Some?
    requires items == Elements(env, EvalExpr(env, node.source, OpenLoop(st)).value, OpenLoop(st))
    requires LastGiven(env, node.attributes, "offset", offset, 0, OpenLoop(st))
    requires LastGiven(env, node.attributes, "limit", limit, MAX_INT, OpenLoop(st))
    requires Eval(env, node, st).Done?
    ensures Eval(env, node, st).value == Text(Loops.Texts(passes)) && |passes| <= limit
    ensures passes == [] <==> limit == 0 || offset >= |items|
    ensures passes != [] ==> passes[0].item == items[offset]
  {
    hide Eval, Elements, EvalExpr, LastGiven;
    var bounds := EvalAttributes(env, node.attributes, 0, MAX_INT, OpenLoop(st));
    assert bounds.Some? by { DoneHasBounds(env, node, st); }
    OffsetAndLimit(env, node.attributes, 0, MAX_INT, OpenLoop(st));
    OneLastGiven(env, node.attributes, "offset", bounds.value.0, offset, 0, OpenLoop(st));
    OneLastGiven(env, node.attributes, "limit", bounds.value.1, limit, MAX_INT, OpenLoop(st));
    var name;
    passes, name := Loops.ArrayLoopPrints(env, node, st, items, offset, limit);
    if passes != [] {
      assert Loops.IsArrayTurn(env, node, st, items, offset, limit, name, passes, 0);
    }
  }

  lemma DoneHasBounds(env: Env, node: Node, st: State)
    requires node.ForArray? && Eval(env, node, st).Done?
    ensures EvalAttributes(env, node.attributes, 0, MAX_INT, OpenLoop(st)).Some?
  {
    hide EvalTurns, EvalBlock, EvalAttributes;
    assert Eval(env, node, st) == EvalFor(env, node, st);
    assert EvalForArray(env, node, OpenLoop(st)).Done?;
  }

  lemma OneLastGiven(env: Env, attributes: seq<Attribute>, key: string, m: int, n: int, default: int, st: State)
    requires LastGiven(env, attributes, key, m, default, st) && LastGiven(env, attributes, key, n, default, st)
    ensures m == n
  {
    hide Given;
    if i :| 0 <= i < |attributes| && IsLastGiven(env, attributes, key, m, i, st) {
      if j :| 0 <= j < |attributes| && IsLastGiven(env, attributes, key, n, j, st) {
        assert i == j;
      }
    }
  }

  /** The suffix of an included file may be left out. */
  lemma IncludeSuffixIsOptional(env: Env, name: string)
    requires !Seqs.EndsWith(name, ".liquid")
    ensures Path(name) == Path(name + ".liquid") == "templates/" + (name + ".liquid")
    ensures Included(env, name) == Included(env, name + ".liquid")
  {
    assert (name + ".liquid")[|name|..] == ".liquid";
  }
}
