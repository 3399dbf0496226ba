/** How long an output can get, and how deep includes go. */
module LiquidBounds {
  import opened LiquidSyntax
  import opened LiquidEval
  import opened Options

  /** How many more includes may be entered. */
  function Left(st: State): nat { Max(0, MAX_DEPTH - Depth(st)) }

  /**
   * How many collectors can be open at once below a node: one for each nested block or loop, and those of
   * an included file while `left` includes may still be entered.
   */
  function Levels(env: Env, node: Node, left: nat): nat
    decreases left, node, 3
  {
    match node
    case Leaf(_) => 0
    case Block(nodes) => BlockLevels(env, nodes, left)
    case If(branches, _) => BranchLevels(env, branches, left)
    case Case(_, parts) => PartLevels(env, parts, left)
    case ForArray(_, _, body, otherwise, _) =>
      Max(BlockLevels(env, body, left), if otherwise.NoElse? then 0 else BlockLevels(env, otherwise.nodes, left))
    case ForRange(_, _, _, body, _) => BlockLevels(env, body, left)
    case Include(name, _) =>
      var nodes := Included(env, name);
      if left == 0 || nodes.None? then 0 else BlockLevels(env, nodes.value, left - 1)
    case Assign(_, _) => 0
    case Capture(_, body) => BlockLevels(env, body, left)
  }

  function BlockLevels(env: Env, nodes: seq<Node>, left: nat): nat
    decreases left, nodes, 1
  {
    1 + ChildLevels(env, nodes, left)
  }

  function ChildLevels(env: Env, nodes: seq<Node>, left: nat): nat
    decreases left, nodes, 0
  {
    if nodes == [] then 0 else Max(Levels(env, nodes[0], left), ChildLevels(env, nodes[1..], left))
  }

  function BranchLevels(env: Env, branches: seq<Branch>, left: nat): nat
    decreases left, branches, 0
  {
    if branches == [] then 0 else Max(BlockLevels(env, branches[0].body, left), BranchLevels(env, branches[1..], left))
  }

  function PartLevels(env: Env, parts: seq<Part>, left: nat): nat
    decreases left, parts, 0
  {
    if parts == [] then 0
    else Max(if parts[0].Body? then BlockLevels(env, parts[0].nodes, left) else 0, PartLevels(env, parts[1..], left))
  }

  /** What `levels` open collectors can hold: each was below the limit before its last append. */
  function Bound(env: Env, levels: nat, longest: nat): (w: nat)
    requires env.limit > 0
    ensures w >= longest
  {
    if levels == 0 then longest else env.limit - 1 + Bound(env, levels - 1, longest)
  }

  lemma {:induction false} BoundIsProduct(env: Env, levels: nat, longest: nat)
    requires env.limit > 0
    ensures Bound(env, levels, longest) == levels * (env.limit - 1) + longest
  {
    if levels > 0 {
      BoundIsProduct(env, levels - 1, longest);
      var m := env.limit - 1;
      assert levels * m == (levels - 1) * m + m;
    }
  }

  lemma {:induction false} BoundGrows(env: Env, a: nat, b: nat, longest: nat, longest': nat)
    requires env.limit > 0 && a <= b && longest <= longest'
    ensures Bound(env, a, longest) <= Bound(env, b, longest')
    ensures Bound(env, a + 1, longest) == env.limit - 1 + Bound(env, a, longest)
    decreases b
  {
    if b > 0 {
      BoundGrows(env, if a == 0 then 0 else a - 1, b - 1, longest, longest');
    }
  }

  /** However it is printed, `v` is no longer than `w`; nil on its own prints as nothing. */
  predicate Fits(env: Env, v: Value, w: nat) { v.Nil? || Width(env, v) <= w }

  lemma TextFits(env: Env, s: string, w: nat)
    ensures Fits(env, Text(s), w) <==> |s| <= w
  {
  }

  lemma StatementFits(env: Env, v: Value, w: nat)
    requires IsStatement(v)
    ensures Fits(env, v, w)
  {
  }

  /** Every piece a collector gets out of a value that fits is no longer than `w`. */
  lemma PiecesFit(env: Env, place: Place, v: Value, w: nat)
    requires Fits(env, v, w) && Pieces(env, place, v).Some? && (v.Nil? ==> place.InArray?)
    ensures forall p :: p in Pieces(env, place, v).value ==> |p| <= w
  {
    var pieces := Pieces(env, place, v).value;
    forall p | p in pieces ensures |p| <= w {
      var k :| 0 <= k < |pieces| && pieces[k] == p;
      if v.Array? || (v.List? && place.InRange?) {
        assert p == Show(env, v.items[k]);
      }
    }
  }

  lemma {:induction false} AppendedFits(env: Env, text: string, pieces: seq<string>, w: nat)
    requires env.limit > 0 && forall p :: p in pieces ==> |p| <= w
    ensures |AppendAll(env, text, pieces).text| <= Max(|text|, env.limit - 1 + w)
    decreases |pieces|
  {
    if pieces != [] && !Full(env, text) {
      assert |pieces[0]| <= w;
      AppendedFits(env, text + pieces[0], pieces[1..], w);
    }
  }

  lemma CollectedFits(env: Env, place: Place, v: Value, text: string, w: nat)
    requires env.limit > 0 && Fits(env, v, w)
    ensures |Collect(env, place, v, text).text| <= Max(|text|, env.limit - 1 + w)
  {
    hide Pieces, AppendAll, Fits;
    if (v.Nil? && !place.InArray?) || IsStatement(v) || Pieces(env, place, v).None? {
    } else {
      PiecesFit(env, place, v, w);
      AppendedFits(env, text, Pieces(env, place, v).value, w);
    }
  }

  /** The values a node returns are bounded by its levels and by the widest leaf met on the way. */
  ghost predicate OutcomeFits(env: Env, levels: nat, r: Outcome)
    requires env.limit > 0
  {
    r.Done? ==> Fits(env, r.value, Bound(env, levels, r.st.longest))
  }

  lemma FitsMore(env: Env, a: nat, b: nat, r: Outcome)
    requires env.limit > 0 && a <= b && OutcomeFits(env, a, r)
    ensures OutcomeFits(env, b, r)
  {
    BoundGrows(env, a, b, r.st.longest, r.st.longest);
  }

  lemma ThrownFits(env: Env, levels: nat, r: Outcome)
    requires env.limit > 0 && r.Thrown?
    ensures OutcomeFits(env, levels, r)
  {
  }

  lemma NilFits(env: Env, levels: nat, st: State)
    requires env.limit > 0
    ensures OutcomeFits(env, levels, Done(Nil, st)) && OutcomeFits(env, levels, Done(Text(""), st))
  {
    TextFits(env, "", Bound(env, levels, st.longest));
    BoundGrows(env, 0, levels, st.longest, st.longest);
  }

  /** A text that a collector left behind, having started from `text`. */
  ghost predicate TextWithin(env: Env, levels: nat, text: string, c: Collected)
    requires env.limit > 0
  {
    |c.text| <= Max(|text|, env.limit - 1 + Bound(env, levels, c.st.longest))
  }

  lemma WithinFits(env: Env, levels: nat, c: Collected)
    requires env.limit > 0 && TextWithin(env, levels, "", c)
    ensures OutcomeFits(env, levels + 1, Done(Text(c.text), c.st))
  {
    BoundGrows(env, levels, levels + 1, c.st.longest, c.st.longest);
    BoundGrows(env, 0, levels, c.st.longest, c.st.longest);
    TextFits(env, c.text, Bound(env, levels + 1, c.st.longest));
  }

  lemma WithinMore(env: Env, a: nat, b: nat, text: string, mid: string, c: Collected, longest: nat)
    requires env.limit > 0 && a <= b && longest <= c.st.longest
    requires |mid| <= Max(|text|, env.limit - 1 + Bound(env, a, longest)) && TextWithin(env, b, mid, c)
    ensures TextWithin(env, b, text, c)
  {
    BoundGrows(env, a, b, longest, c.st.longest);
  }

  lemma LeafFits(env: Env, e: Expr, st: State)
    requires env.limit > 0
    ensures OutcomeFits(env, 0, Eval(env, Leaf(e), st))
  {
  }

  // One lemma for each function of the evaluator, by the same recursion.

  lemma {:induction false} EvalFits(env: Env, node: Node, st: State)
    requires env.limit > 0
    ensures OutcomeFits(env, Levels(env, node, Left(st)), Eval(env, node, st))
    decreases MAX_DEPTH - Depth(st), node, 3
  {
    hide OutcomeFits, Kept, EvalExpr;
    match node
    case Leaf(e) => LeafFits(env, e, st);
    case Block(nodes) => BlockFits(env, nodes, st);
    case If(branches, negated) => IfFits(env, branches, negated, st);
    case Case(subject, parts) =>
      var v := EvalExpr(env, subject, st);
      if v.None? {
        ThrownFits(env, PartLevels(env, parts, Left(st)), Thrown(Failed, st));
      } else {
        CaseFits(env, v.value, parts, st);
      }
    case ForArray(_, _, _, _, _) => ForFits(env, node, st);
    case ForRange(_, _, _, _, _) => ForFits(env, node, st);
    case Include(name, with) => IncludeFits(env, name, with, st);
    case Assign(id, e) =>
      var v := EvalExpr(env, e, st);
      if v.None? {
        ThrownFits(env, 0, Thrown(Failed, st));
      } else {
        NilFits(env, 0, Put(st, id, v.value));
      }
    case Capture(id, body) =>
      var r := EvalBlock(env, body, st);
      if r.Done? {
        NilFits(env, BlockLevels(env, body, Left(st)), Put(r.st, id, r.value));
      } else {
        ThrownFits(env, BlockLevels(env, body, Left(st)), r);
      }
  }

  lemma {:induction false} BlockFits(env: Env, nodes: seq<Node>, st: State)
    requires env.limit > 0
    ensures OutcomeFits(env, BlockLevels(env, nodes, Left(st)), EvalBlock(env, nodes, st))
    decreases MAX_DEPTH - Depth(st), nodes, 1
  {
    hide OutcomeFits, TextWithin, EvalBody, ChildLevels, Kept;
    var c, levels := EvalBody(env, InBlock, nodes, "", st), ChildLevels(env, nodes, Left(st));
    match c.ending
    case Ran =>
      BodyFits(env, InBlock, nodes, "", st);
      WithinFits(env, levels, c);
    case Stopped(statement) =>
      StoppedByStatement(env, InBlock, nodes, "", st);
      StatementDone(env, levels + 1, statement, c.st);
    case Raised(error) =>
      ThrownFits(env, levels + 1, Thrown(error, c.st));
  }

  lemma StatementDone(env: Env, levels: nat, v: Value, st: State)
    requires env.limit > 0 && IsStatement(v)
    ensures OutcomeFits(env, levels, Done(v, st))
  {
    StatementFits(env, v, Bound(env, levels, st.longest));
  }

  lemma {:induction false} StoppedByStatement(env: Env, place: Place, nodes: seq<Node>, text: string, st: State)
    requires EvalBody(env, place, nodes, text, st).ending.Stopped?
    ensures IsStatement(EvalBody(env, place, nodes, text, st).ending.statement)
    decreases |nodes|
  {
    hide Eval, Kept;
    var r := Eval(env, nodes[0], st);
    var t := Collect(env, place, r.value, text);
    if t.ending.Ran? {
      StoppedByStatement(env, place, nodes[1..], t.text, r.st);
    }
  }

  lemma {:induction false} BodyFits(env: Env, place: Place, nodes: seq<Node>, text: string, st: State)
    requires env.limit > 0
    ensures TextWithin(env, ChildLevels(env, nodes, Left(st)), text, EvalBody(env, place, nodes, text, st))
    decreases MAX_DEPTH - Depth(st), nodes, 0
  {
    hide OutcomeFits, TextWithin, Eval, Levels, Collect, Bound;
    var levels, c := ChildLevels(env, nodes, Left(st)), EvalBody(env, place, nodes, text, st);
    if nodes == [] {
      assert TextWithin(env, levels, text, c) by { SameText(env, levels, text, c); }
    } else {
      var r := Eval(env, nodes[0], st);
      var first := Levels(env, nodes[0], Left(st));
      if r.Thrown? {
        SameText(env, levels, text, c);
      } else {
        EvalFits(env, nodes[0], st);
        var t := Collect(env, place, r.value, text);
        ChildCollected(env, place, first, r, text);
        if t.ending.Ran? {
          BodyFits(env, place, nodes[1..], t.text, r.st);
          var rest := ChildLevels(env, nodes[1..], Left(st));
          WithinWider(env, rest, levels, t.text, c);
        } else {
          SameText(env, levels, t.text, c);
        }
        WithinMore(env, first, levels, text, t.text, c, r.st.longest);
      }
    }
  }

  lemma ChildCollected(env: Env, place: Place, levels: nat, r: Outcome, text: string)
    requires env.limit > 0 && r.Done? && OutcomeFits(env, levels, r)
    ensures |Collect(env, place, r.value, text).text| <= Max(|text|, env.limit - 1 + Bound(env, levels, r.st.longest))
  {
    CollectedFits(env, place, r.value, text, Bound(env, levels, r.st.longest));
  }

  lemma SameText(env: Env, levels: nat, text: string, c: Collected)
    requires env.limit > 0 && c.text == text
    ensures TextWithin(env, levels, text, c)
  {
  }

  lemma WithinWider(env: Env, a: nat, b: nat, text: string, c: Collected)
    requires env.limit > 0 && a <= b && TextWithin(env, a, text, c)
    ensures TextWithin(env, b, text, c)
  {
    BoundGrows(env, a, b, c.st.longest, c.st.longest);
  }

  lemma {:induction false} IfFits(env: Env, branches: seq<Branch>, negated: bool, st: State)
    requires env.limit > 0
    ensures OutcomeFits(env, BranchLevels(env, branches, Left(st)), EvalIf(env, branches, negated, st))
    decreases MAX_DEPTH - Depth(st), branches, 0
  {
    hide OutcomeFits, EvalBlock, BlockLevels, EvalExpr, Kept;
    var levels, r := BranchLevels(env, branches, Left(st)), EvalIf(env, branches, negated, st);
    if branches == [] {
      NilFits(env, levels, st);
    } else if EvalExpr(env, branches[0].condition, st).None? {
      ThrownFits(env, levels, r);
    } else if Truthy(EvalExpr(env, branches[0].condition, st).value) != negated {
      BlockFits(env, branches[0].body, st);
      FitsMore(env, BlockLevels(env, branches[0].body, Left(st)), levels, r);
    } else {
      IfFits(env, branches[1..], negated, st);
      FitsMore(env, BranchLevels(env, branches[1..], Left(st)), levels, r);
    }
  }

  lemma {:induction false} CaseFits(env: Env, subject: Value, parts: seq<Part>, st: State)
    requires env.limit > 0
    ensures OutcomeFits(env, PartLevels(env, parts, Left(st)), EvalCase(env, subject, parts, st))
    decreases MAX_DEPTH - Depth(st), parts, 1
  {
    hide OutcomeFits, EvalBlock, BlockLevels, Kept, EvalTerms;
    var levels, r := PartLevels(env, parts, Left(st)), EvalCase(env, subject, parts, st);
    if parts == [] {
      NilFits(env, levels, st);
    } else if |parts| == 1 && parts[0].Body? {
      BlockFits(env, parts[0].nodes, st);
      FitsMore(env, BlockLevels(env, parts[0].nodes, Left(st)), levels, r);
    } else {
      TermsFit(env, subject, parts, false, st);
    }
  }

  lemma {:induction false} TermsFit(env: Env, subject: Value, parts: seq<Part>, hit: bool, st: State)
    requires env.limit > 0
    ensures OutcomeFits(env, PartLevels(env, parts, Left(st)), EvalTerms(env, subject, parts, hit, st))
    decreases MAX_DEPTH - Depth(st), parts, 0
  {
    hide OutcomeFits, EvalBlock, BlockLevels, EvalExpr, Kept, EvalCase;
    var levels, r := PartLevels(env, parts, Left(st)), EvalTerms(env, subject, parts, hit, st);
    if parts == [] {
      ThrownFits(env, levels, r);
    } else if parts[0].Term? {
      var v := EvalExpr(env, parts[0].expr, st);
      if v.None? {
        ThrownFits(env, levels, r);
      } else {
        TermsFit(env, subject, parts[1..], hit || env.equal(subject, v.value), st);
        FitsMore(env, PartLevels(env, parts[1..], Left(st)), levels, r);
      }
    } else if hit {
      BlockFits(env, parts[0].nodes, st);
      FitsMore(env, BlockLevels(env, parts[0].nodes, Left(st)), levels, r);
    } else {
      CaseFits(env, subject, parts[1..], st);
      FitsMore(env, PartLevels(env, parts[1..], Left(st)), levels, r);
    }
  }

  lemma {:induction false} ForFits(env: Env, node: Node, st: State)
    requires env.limit > 0 && IsFor(node)
    ensures OutcomeFits(env, Levels(env, node, Left(st)), EvalFor(env, node, st))
    decreases MAX_DEPTH - Depth(st), node, 2
  {
    hide Levels, EvalForArray, EvalForRange, Kept, Bound, Fits;
    var st1 := OpenLoop(st);
    assert Left(st1) == Left(st);
    if node.ForArray? {
      ForArrayFits(env, node, st1);
    } else {
      ForRangeFits(env, node, st1);
    }
  }

  lemma {:induction false} ForArrayFits(env: Env, node: Node, st: State)
    requires env.limit > 0 && node.ForArray? && |st.loops| > 0
    ensures OutcomeFits(env, Levels(env, node, Left(st)), EvalForArray(env, node, st))
    decreases MAX_DEPTH - Depth(st), node, 1
  {
    hide OutcomeFits, TextWithin, EvalTurns, EvalBlock, ChildLevels, Kept, EvalExpr, EvalAttributes, Elements, Bound;
    var levels, r := Levels(env, node, Left(st)), EvalForArray(env, node, st);
    var bounds := EvalAttributes(env, node.attributes, 0, MAX_INT, st);
    var v := EvalExpr(env, node.source, st);
    if r.Thrown? {
      ThrownFits(env, levels, r);
    } else if Elements(env, v.value, st) == [] {
      if node.otherwise.NoElse? {
        NilFits(env, levels, st);
      } else {
        BlockFits(env, node.otherwise.nodes, st);
        FitsMore(env, BlockLevels(env, node.otherwise.nodes, Left(st)), levels, r);
      }
    } else {
      var named := Some(node.id + "-" + env.describe(node.source, st.vars, st.loops, st.depth).value);
      var st1 := st.(loops := st.loops[|st.loops| - 1 := Named(named)]);
      var source := Items(Elements(env, v.value, st), bounds.value.0, bounds.value.1);
      var c := EvalTurns(env, node.id, named, node.body, source, |st.loops| - 1, 0, "", st1);
      TurnsFit(env, node.id, named, node.body, source, |st.loops| - 1, 0, "", st1);
      WithinFits(env, ChildLevels(env, node.body, Left(st)), c);
      FitsMore(env, BlockLevels(env, node.body, Left(st)), levels, r);
    }
  }

  lemma {:induction false} ForRangeFits(env: Env, node: Node, st: State)
    requires env.limit > 0 && node.ForRange? && |st.loops| > 0
    ensures OutcomeFits(env, Levels(env, node, Left(st)), EvalForRange(env, node, st))
    decreases MAX_DEPTH - Depth(st), node, 1
  {
    hide OutcomeFits, TextWithin, EvalTurns, ChildLevels, Kept, EvalNumber, EvalAttributes, Bound;
    var levels, r := Levels(env, node, Left(st)), EvalForRange(env, node, st);
    var bounds := EvalAttributes(env, node.attributes, 0, MAX_INT, st);
    var from, to := EvalNumber(env, node.from, st), EvalNumber(env, node.to, st);
    if r.Thrown? {
      ThrownFits(env, levels, r);
    } else if from.None? || to.None? {
      NilFits(env, levels, st);
    } else {
      var source := Range(Wrap(from.value + bounds.value.0), to.value, Wrap(to.value - from.value), bounds.value.1);
      var c := EvalTurns(env, node.id, None, node.body, source, |st.loops| - 1, 0, "", st);
      TurnsFit(env, node.id, None, node.body, source, |st.loops| - 1, 0, "", st);
      WithinFits(env, ChildLevels(env, node.body, Left(st)), c);
    }
  }

  lemma {:induction false} TurnsFit(env: Env, id: Name, name: Option<string>, body: seq<Node>, source: Source, k: nat,
                                    n: nat, text: string, st: State)
    requires env.limit > 0 && k < |st.loops|
    ensures TextWithin(env, ChildLevels(env, body, Left(st)), text,
        EvalTurns(env, id, name, body, source, k, n, text, st))
    decreases MAX_DEPTH - Depth(st), body, 1 + Max(0, source.limit - n)
  {
    hide TextWithin, EvalBody, ChildLevels, Bound, Source.At, Source.Last, Source.Resume, Source.Length;
    var levels, r := ChildLevels(env, body, Left(st)), EvalTurns(env, id, name, body, source, k, n, text, st);
    if !source.More(n) || source.Item(n).None? {
      SameText(env, levels, text, r);
    } else {
      var st1 := OpenTurn(st, id, name, source, k, n, source.Item(n).value);
      var c := EvalBody(env, source.Collector(), body, text, st1);
      BodyFits(env, source.Collector(), body, text, st1);
      if c.ending == Stopped(Break) || c.ending.Raised? {
        SameLongest(env, levels, text, c, r);
      } else {
        TurnsFit(env, id, name, body, source, k, n + 1, c.text, c.st);
        AfterTurn(env, levels, text, c, r);
      }
    }
  }

  lemma SameLongest(env: Env, levels: nat, text: string, c: Collected, r: Collected)
    requires env.limit > 0 && TextWithin(env, levels, text, c) && r.text == c.text && r.st.longest == c.st.longest
    ensures TextWithin(env, levels, text, r)
  {
  }

  lemma AfterTurn(env: Env, levels: nat, text: string, c: Collected, r: Collected)
    requires env.limit > 0 && TextWithin(env, levels, text, c) && TextWithin(env, levels, c.text, r)
    requires c.st.longest <= r.st.longest
    ensures TextWithin(env, levels, text, r)
  {
    BoundGrows(env, levels, levels, c.st.longest, r.st.longest);
  }

  lemma {:induction false} IncludeFits(env: Env, name: Name, with: Option<string>, st: State)
    requires env.limit > 0
    ensures OutcomeFits(env, Levels(env, Include(name, with), Left(st)), EvalInclude(env, name, with, st))
    decreases MAX_DEPTH - Depth(st), name, 0
  {
    hide OutcomeFits, EvalTemplate, BlockLevels, Kept, Path;
    var levels, r := Levels(env, Include(name, with), Left(st)), EvalInclude(env, name, with, st);
    if r.Thrown? {
      ThrownFits(env, levels, r);
    } else {
      var st1 := Descend(st, name, with);
      var nodes := Included(env, name).value;
      assert Left(st1) == Left(st) - 1;
      TemplateFits(env, nodes, st1);
      var inner := EvalTemplate(env, nodes, st1);
      assert r == Done(inner.value, Ascend(inner.st));
      assert OutcomeFits(env, levels, r) by { SameWidth(env, levels, inner, r); }
    }
  }

  lemma SameWidth(env: Env, levels: nat, a: Outcome, b: Outcome)
    requires env.limit > 0 && OutcomeFits(env, levels, a) && a.Done? && b.Done? && a.value == b.value
        && a.st.longest == b.st.longest
    ensures OutcomeFits(env, levels, b)
  {
  }

  lemma {:induction false} TemplateFits(env: Env, nodes: seq<Node>, st: State)
    requires env.limit > 0
    ensures OutcomeFits(env, BlockLevels(env, nodes, Left(st)), EvalTemplate(env, nodes, st))
    decreases MAX_DEPTH - Depth(st), nodes, 2
  {
    hide EvalBlock, BlockLevels, Kept, Bound;
    BlockFits(env, nodes, st);
    var r := EvalBlock(env, nodes, st);
    if r.Done? {
      hide Eval;
      var w := Bound(env, BlockLevels(env, nodes, Left(st)), r.st.longest);
      BlockIsText(env, nodes, st);
      TextFits(env, Show(env, r.value), w);
    }
  }

  lemma BlockIsText(env: Env, nodes: seq<Node>, st: State)
    requires EvalBlock(env, nodes, st).Done?
    ensures var v := EvalBlock(env, nodes, st).value; v.Text? || IsStatement(v)
  {
    hide EvalBody;
    if EvalBody(env, InBlock, nodes, "", st).ending.Stopped? {
      StoppedByStatement(env, InBlock, nodes, "", st);
    }
  }

  /**
   * The output of a template is at most one `limit - 1` for every block, loop and included root that can be
   * nested, plus the widest value a leaf produced, although a builder looks at its length only before it appends.
   */
  lemma OutputBound(env: Env, nodes: seq<Node>, st: State)
    requires env.limit > 0 && EvalTemplate(env, nodes, st).Done?
    ensures var r := EvalTemplate(env, nodes, st);
      |r.value.s| <= BlockLevels(env, nodes, Left(st)) * (env.limit - 1) + r.st.longest
  {
    hide EvalTemplate, BlockLevels;
    TemplateFits(env, nodes, st);
    var r := EvalTemplate(env, nodes, st);
    TextFits(env, r.value.s, Bound(env, BlockLevels(env, nodes, Left(st)), r.st.longest));
    BoundIsProduct(env, BlockLevels(env, nodes, Left(st)), r.st.longest);
  }

  // -------------------------------------------------------------------- includes

  /** In every state an include can open, the nodes are all rendered: none stops the body or throws. */
  ghost predicate RunsThrough(env: Env, nodes: seq<Node>) {
    forall st :: Depth(st) <= MAX_DEPTH ==> EvalBody(env, InBlock, nodes, "", st).ending.Ran?
  }

  /** The nodes of a file around one include of it. */
  datatype Link = Link(before: seq<Node>, next: Name, with: Option<string>, after: seq<Node>)
  {
    function Nodes(): seq<Node> { before + ([Node.Include(next, with)] + after) }
  }

  /** A file that, after nodes that run through, includes a name of `cycle`. */
  ghost predicate Leads(env: Env, name: Name, cycle: set<Name>, link: Link) {
    link.next in cycle && RunsThrough(env, link.before) && Included(env, name) == Some(link.Nodes())
  }

  /** Templates each of which includes another of them, or itself, once the nodes before that are rendered. */
  ghost predicate IsCycle(env: Env, cycle: set<Name>) {
    forall name :: name in cycle ==> exists link :: Leads(env, name, cycle, link)
  }

  /** A child that throws ends the body it is in. */
  lemma {:induction false} ThrowEndsBody(env: Env, before: seq<Node>, node: Node, after: seq<Node>, text: string,
                                         st: State)
    requires var c := EvalBody(env, InBlock, before, text, st); c.ending.Ran? && Eval(env, node, c.st).Thrown?
    ensures var r := Eval(env, node, EvalBody(env, InBlock, before, text, st).st);
      var c := EvalBody(env, InBlock, before + ([node] + after), text, st);
      c.ending == Raised(r.error) && c.st == r.st
    decreases |before|
  {
    hide Eval, Collect, Kept;
    var nodes := before + ([node] + after);
    if before == [] {
      assert nodes == [node] + after && nodes[0] == node;
    } else {
      assert nodes[0] == before[0] && nodes[1..] == before[1..] + ([node] + after);
      var r := Eval(env, before[0], st);
      ThrowEndsBody(env, before[1..], node, after, Collect(env, InBlock, r.value, text).text, r.st);
    }
  }

  /** What an include of a cycle does: nothing at depth 150, and before that it throws when 150 are open. */
  ghost predicate IsCutOff(r: Outcome, st: State) {
    && r.Thrown? && r.error == TooDeep
    && (if Depth(st) < MAX_DEPTH then r.st.peak == Max(st.peak, MAX_DEPTH) else r.st == st)
  }

  /** Templates that include one another in a cycle are cut off when 150 includes are open, and not before. */
  lemma {:induction false} CyclicIncludeIsCutOff(env: Env, cycle: set<Name>, name: Name, with: Option<string>,
                                                 st: State)
    requires IsCycle(env, cycle) && name in cycle
    ensures IsCutOff(EvalInclude(env, name, with, st), st)
    decreases MAX_DEPTH - Depth(st)
  {
    hide EvalInclude, EvalBody, IsCycle, IsCutOff, Included, RunsThrough;
    if Depth(st) >= MAX_DEPTH {
      RefusedAtDepth(env, name, with, st);
    } else {
      var link := NextInCycle(env, cycle, name);
      var c := EvalBody(env, InBlock, link.before, "", Descend(st, name, with));
      assert Kept(Descend(st, name, with), c.st) && Depth(c.st) == Depth(st) + 1;
      CyclicIncludeIsCutOff(env, cycle, link.next, link.with, c.st);
      CutOffAbove(env, cycle, name, with, st, link);
    }
  }

  lemma RefusedAtDepth(env: Env, name: Name, with: Option<string>, st: State)
    requires Depth(st) >= MAX_DEPTH
    ensures IsCutOff(EvalInclude(env, name, with, st), st)
  {
  }

  /** An include leading to one that is cut off is cut off. */
  lemma CutOffAbove(env: Env, cycle: set<Name>, name: Name, with: Option<string>, st: State, link: Link)
    requires Leads(env, name, cycle, link) && Depth(st) < MAX_DEPTH
    requires var st2 := EvalBody(env, InBlock, link.before, "", Descend(st, name, with)).st;
      IsCutOff(EvalInclude(env, link.next, link.with, st2), st2)
    ensures IsCutOff(EvalInclude(env, name, with, st), st)
  {
    hide Eval, EvalInclude, EvalBody, RunsThrough, Included;
    var node, st1 := Node.Include(link.next, link.with), Descend(st, name, with);
    RunsFrom(env, link.before, st1);
    var st2 := EvalBody(env, InBlock, link.before, "", st1).st;
    assert Kept(st1, st2);
    IncludeIsEval(env, link.next, link.with, st2);
    ThrowEndsBody(env, link.before, node, link.after, "", st1);
    IncludeThrows(env, name, with, link.Nodes(), st);
  }

  /** An include throws what its template throws. */
  lemma IncludeThrows(env: Env, name: Name, with: Option<string>, nodes: seq<Node>, st: State)
    requires Included(env, name) == Some(nodes) && Depth(st) < MAX_DEPTH
    requires EvalBody(env, InBlock, nodes, "", Descend(st, name, with)).ending.Raised?
    ensures var c := EvalBody(env, InBlock, nodes, "", Descend(st, name, with));
      EvalInclude(env, name, with, st) == Thrown(c.ending.error, Ascend(c.st))
  {
    hide EvalBody, Path;
    var st1 := Descend(st, name, with);
    assert EvalTemplate(env, nodes, st1) == EvalBlock(env, nodes, st1);
  }

  lemma NextInCycle(env: Env, cycle: set<Name>, name: Name) returns (link: Link)
    requires IsCycle(env, cycle) && name in cycle
    ensures Leads(env, name, cycle, link)
  {
    hide Leads;
    link :| Leads(env, name, cycle, link);
  }

  lemma RunsFrom(env: Env, nodes: seq<Node>, st: State)
    requires RunsThrough(env, nodes) && Depth(st) <= MAX_DEPTH
    ensures EvalBody(env, InBlock, nodes, "", st).ending.Ran?
  {
  }

  lemma IncludeIsEval(env: Env, name: Name, with: Option<string>, st: State)
    ensures Eval(env, Node.Include(name, with), st) == EvalInclude(env, name, with, st)
  {
  }
}
