/** What loops, conditionals and breaks of a template mean, stated without the collectors that run them. */
module LiquidLoops {
  import opened LiquidSyntax
  import opened LiquidEval
  import opened Options
  import Seqs

  // ------------------------------------------------------- printing after a text

  lemma {:induction false} AppendedAfter(env: Env, before: string, text: string, pieces: seq<string>)
    requires AppendAll(env, before + text, pieces).ok
    ensures AppendAll(env, text, pieces).ok
    ensures AppendAll(env, before + text, pieces).text == before + AppendAll(env, text, pieces).text
    decreases |pieces|
  {
    if pieces != [] {
      Seqs.Assoc(before, text, pieces[0]);
      AppendedAfter(env, before, text + pieces[0], pieces[1..]);
    }
  }

  lemma CollectedAfter(env: Env, place: Place, v: Value, before: string, text: string)
    requires !Collect(env, place, v, before + text).ending.Raised?
    ensures Collect(env, place, v, before + text).ending == Collect(env, place, v, text).ending
    ensures Collect(env, place, v, before + text).text == before + Collect(env, place, v, text).text
  {
    hide AppendAll, Pieces;
    if (v.Nil? && !place.InArray?) || IsStatement(v) {
    } else {
      AppendedAfter(env, before, text, Pieces(env, place, v).value);
    }
  }

  /** A body that does not throw prints the same text wherever it starts. */
  lemma {:induction false} BodyAfter(env: Env, place: Place, nodes: seq<Node>, before: string, text: string, st: State)
    requires !EvalBody(env, place, nodes, before + text, st).ending.Raised?
    ensures var c := EvalBody(env, place, nodes, text, st);
      EvalBody(env, place, nodes, before + text, st) == Collected(before + c.text, c.ending, c.st)
    decreases |nodes|
  {
    hide Eval, Collect, Kept;
    if nodes != [] {
      var r := Eval(env, nodes[0], st);
      CollectedAfter(env, place, r.value, before, text);
      var t := Collect(env, place, r.value, text);
      if t.ending.Ran? {
        BodyAfter(env, place, nodes[1..], before, t.text, r.st);
      }
    }
  }

  // --------------------------------------------------------------------- loops

  /** One turn: its item, the state its body starts from, and what the body does on its own. */
  datatype Pass = Pass(item: Value, before: State, text: string, ending: Ending, after: State)

  function Texts(passes: seq<Pass>): string {
    if passes == [] then "" else passes[0].text + Texts(passes[1..])
  }

  /** `passes` are turns `n` and on, each starting where the one before it ended. */
  ghost predicate Follows(env: Env, id: Name, name: Option<string>, body: seq<Node>, source: Source, k: nat, n: nat,
                          st: State, passes: seq<Pass>)
    requires k < |st.loops|
    decreases |passes|
  {
    passes != [] ==>
      var p := passes[0];
      && source.Item(n) == Some(p.item)
      && p.before == OpenTurn(st, id, name, source, k, n, p.item)
      && EvalBody(env, source.Collector(), body, "", p.before) == Collected(p.text, p.ending, p.after)
      && k < |p.after.loops|
      && Follows(env, id, name, body, source, k, n + 1, p.after, passes[1..])
  }

  predicate Broke(p: Pass) { p.ending == Stopped(Break) }

  function Final(st: State, passes: seq<Pass>): State { if passes == [] then st else passes[|passes| - 1].after }

  /** Turn `n + j` is due, does not throw, and does not break unless it is the last. */
  predicate IsTurn(source: Source, n: int, passes: seq<Pass>, j: int) {
    0 <= j < |passes| && source.More(n + j) && !passes[j].ending.Raised? && (j < |passes| - 1 ==> !Broke(passes[j]))
  }

  predicate Exhausted(source: Source, n: int, passes: seq<Pass>) {
    (|passes| > 0 && Broke(passes[|passes| - 1])) || !source.More(n + |passes|)
  }

  /** Turns `n` and on, up to the first that breaks or else until there are no more. */
  ghost predicate Complete(source: Source, n: int, passes: seq<Pass>) {
    (forall j :: 0 <= j < |passes| ==> IsTurn(source, n, passes, j)) && Exhausted(source, n, passes)
  }

  lemma CompleteWithMore(source: Source, n: int, p: Pass, rest: seq<Pass>)
    requires source.More(n) && !p.ending.Raised? && !Broke(p) && Complete(source, n + 1, rest)
    ensures Complete(source, n, [p] + rest)
  {
    var passes := [p] + rest;
    hide Source.More;
    assert n + 1 + |rest| == n + |passes|;
    if rest != [] {
      assert passes[|passes| - 1] == rest[|rest| - 1];
    }
    forall j | 0 <= j < |passes| ensures IsTurn(source, n, passes, j) {
      if j > 0 {
        assert IsTurn(source, n + 1, rest, j - 1);
        assert passes[j] == rest[j - 1] && n + j == n + 1 + (j - 1);
      }
    }
  }

  lemma {:induction false} LoopPasses(env: Env, id: Name, name: Option<string>, body: seq<Node>, source: Source, k: nat,
                                      n: nat, text: string, st: State)
      returns (passes: seq<Pass>)
    requires k < |st.loops|
    requires !EvalTurns(env, id, name, body, source, k, n, text, st).ending.Raised?
    ensures Follows(env, id, name, body, source, k, n, st, passes) && Complete(source, n, passes)
    ensures var c := EvalTurns(env, id, name, body, source, k, n, text, st);
      c.text == text + Texts(passes) && c.st == Put(Final(st, passes), CONTINUE, source.Resume(n + |passes|))
    decreases Max(0, source.limit - n)
  {
    hide EvalBody, Source.Item, Source.At, Source.Last, Source.Resume, Source.Length;
    assert text + "" == text;
    if !source.More(n) {
      passes := [];
    } else {
      var before := OpenTurn(st, id, name, source, k, n, source.Item(n).value);
      var c := EvalBody(env, source.Collector(), body, text, before);
      BodyAfter(env, source.Collector(), body, text, "", before);
      var own := EvalBody(env, source.Collector(), body, "", before);
      var p := Pass(source.Item(n).value, before, own.text, own.ending, own.st);
      if Broke(p) {
        passes := [p];
        assert Texts([p]) == own.text + "" == own.text;
      } else {
        var rest := LoopPasses(env, id, name, body, source, k, n + 1, c.text, c.st);
        passes := [p] + rest;
        assert passes[1..] == rest && n + 1 + |rest| == n + |passes|;
        CompleteWithMore(source, n, p, rest);
        hide Complete;
        assert Final(st, passes) == Final(c.st, rest);
        Seqs.Assoc(text, own.text, Texts(rest));
      }
    }
  }

  // ------------------------------------------------------------------ array loops

  /** How many items a loop over `length` items can visit. */
  function Window(length: int, offset: int, limit: int): (w: int)
    ensures w >= 0
  {
    Max(0, Min(length, offset + limit) - offset)
  }

  /** Turn `j` of an array loop: its item and what `forloop` says. */
  ghost predicate ShowsItem(p: Pass, id: Name, name: Option<string>, items: seq<Value>, offset: nat, limit: nat,
                            k: nat, j: nat)
  {
    && offset + j < |items| && p.item == items[offset + j]
    && id in p.before.vars && p.before.vars[id] == p.item
    && k < |p.before.loops|
    && p.before.loops[k] == Turn(name, Min(limit, |items|), j, j == 0, j == Window(|items|, offset, limit) - 1)
  }

  lemma {:induction false} PassRuns(env: Env, id: Name, name: Option<string>, body: seq<Node>, source: Source, k: nat,
                                    n: nat, st: State, passes: seq<Pass>, j: nat)
    requires k < |st.loops| && Follows(env, id, name, body, source, k, n, st, passes) && j < |passes|
    ensures EvalBody(env, source.Collector(), body, "", passes[j].before)
         == Collected(passes[j].text, passes[j].ending, passes[j].after)
    ensures source.Item(n + j) == Some(passes[j].item) && k < |(if j == 0 then st else passes[j - 1].after).loops|
    ensures passes[j].before
        == OpenTurn(if j == 0 then st else passes[j - 1].after, id, name, source, k, n + j, passes[j].item)
    decreases j
  {
    hide EvalBody, OpenTurn;
    if j > 0 {
      PassRuns(env, id, name, body, source, k, n + 1, passes[0].after, passes[1..], j - 1);
    }
  }

  lemma {:induction false} PassShowsItem(env: Env, id: Name, name: Option<string>, body: seq<Node>, items: seq<Value>,
                                         offset: nat, limit: nat, k: nat, n: nat, st: State, passes: seq<Pass>, j: nat)
    requires k < |st.loops| && Follows(env, id, name, body, Items(items, offset, limit), k, n, st, passes)
    requires j < |passes| && n + j < Window(|items|, offset, limit)
    ensures ShowsItem(passes[j], id, name, items, offset, limit, k, n + j)
    decreases j
  {
    hide EvalBody;
    if j > 0 {
      PassShowsItem(env, id, name, body, items, offset, limit, k, n + 1, passes[0].after, passes[1..], j - 1);
    }
  }

  /** Turn `j` starts where turn `j - 1` ended, the first from a fresh loop with a name. */
  ghost predicate StartsAfter(passes: seq<Pass>, j: nat, id: Name, name: Option<string>, source: Source, st: State)
    requires j < |passes|
  {
    var from := if j == 0 then NamedLoop(st, name) else passes[j - 1].after;
    |st.loops| < |from.loops| && passes[j].before == OpenTurn(from, id, name, source, |st.loops|, j, passes[j].item)
  }

  function NamedLoop(st: State, name: Option<string>): (st': State)
    ensures |st.loops| < |st'.loops|
  {
    OpenLoop(st).(loops := st.loops + [Named(name)])
  }

  /** Turn `j` has the item and the `forloop` due, starts where it should, and does what its body does. */
  ghost predicate IsArrayTurn(env: Env, node: Node, st: State, items: seq<Value>, offset: nat, limit: nat,
                              name: Option<string>, passes: seq<Pass>, j: nat)
    requires node.ForArray? && j < |passes|
  {
    var p := passes[j];
    && ShowsItem(p, node.id, name, items, offset, limit, |st.loops|, j)
    && StartsAfter(passes, j, node.id, name, Items(items, offset, limit), st)
    && EvalBody(env, InArray, node.body, "", p.before) == Collected(p.text, p.ending, p.after)
  }

  lemma ArrayTurn(env: Env, node: Node, st: State, items: seq<Value>, offset: nat, limit: nat,
                  name: Option<string>, passes: seq<Pass>, j: nat)
    requires node.ForArray? && j < |passes| && |passes| <= Window(|items|, offset, limit)
    requires Follows(env, node.id, name, node.body, Items(items, offset, limit), |st.loops|, 0, NamedLoop(st, name),
        passes)
    ensures IsArrayTurn(env, node, st, items, offset, limit, name, passes, j)
  {
    hide EvalBody, Follows, ShowsItem, OpenTurn, Window;
    var source := Items(items, offset, limit);
    PassRuns(env, node.id, name, node.body, source, |st.loops|, 0, NamedLoop(st, name), passes, j);
    PassShowsItem(env, node.id, name, node.body, items, offset, limit, |st.loops|, 0, NamedLoop(st, name), passes, j);
    assert 0 + j == j && source.Item(j) == Some(passes[j].item);
  }

  /** The value and the bounds an array loop starts from. */
  ghost predicate LoopsOver(env: Env, node: Node, st: State, items: seq<Value>, offset: int, limit: int) {
    && node.ForArray?
    && EvalAttributes(env, node.attributes, 0, MAX_INT, OpenLoop(st)) == Some((offset, limit))
    && EvalExpr(env, node.source, OpenLoop(st)).Some?
    && items == Elements(env, EvalExpr(env, node.source, OpenLoop(st)).value, OpenLoop(st))
  }

  /** The turns a returning array loop is made of. */
  lemma ArrayLoopIsTurns(env: Env, node: Node, st: State, items: seq<Value>, offset: int, limit: int)
      returns (name: Option<string>, c: Collected)
    requires LoopsOver(env, node, st, items, offset, limit) && items != []
    requires Eval(env, node, st).Done?
    ensures c == EvalTurns(env, node.id, name, node.body, Items(items, offset, limit), |st.loops|, 0, "",
        NamedLoop(st, name))
    ensures !c.ending.Raised?
    ensures Eval(env, node, st) == Done(Text(c.text), CloseLoop(c.st, Get(st, FORLOOP)))
  {
    hide EvalTurns, EvalAttributes, Elements;
    assert Eval(env, node, st) == EvalFor(env, node, st);
    var inner := OpenLoop(st);
    assert |inner.loops| - 1 == |st.loops|;
    assert EvalForArray(env, node, inner).Done?;
    var source := env.describe(node.source, inner.vars, inner.loops, inner.depth);
    assert source.Some?;
    name := Some(node.id + "-" + source.value);
    assert inner.(loops := inner.loops[|st.loops| := Named(name)]) == NamedLoop(st, name);
    c := EvalTurns(env, node.id, name, node.body, Items(items, offset, limit), |st.loops|, 0, "", NamedLoop(st, name));
  }

  lemma Reopened(c: Collected, outer: Value, v: Value)
    requires CONTINUE in c.st.vars && c.st.vars[CONTINUE] == v
    ensures Get(CloseLoop(c.st, outer), FORLOOP) == outer && Get(CloseLoop(c.st, outer), CONTINUE) == v
  {
    assert FORLOOP[0] != CONTINUE[0];
  }

  lemma WindowCovered(items: seq<Value>, offset: nat, limit: nat, passes: seq<Pass>)
    requires Complete(Items(items, offset, limit), 0, passes)
    ensures |passes| <= Window(|items|, offset, limit)
    ensures forall j :: 0 <= j < |passes| - 1 ==> !Broke(passes[j])
    ensures |passes| < Window(|items|, offset, limit) ==> passes != [] && Broke(passes[|passes| - 1])
    ensures Items(items, offset, limit).Resume(|passes|) == Int(Wrap(offset + Max(1, |passes|)))
  {
    var source := Items(items, offset, limit);
    forall j | 0 <= j < |passes| - 1 ensures !Broke(passes[j]) {
      assert IsTurn(source, 0, passes, j);
    }
    if passes != [] {
      assert IsTurn(source, 0, passes, |passes| - 1);
    }
  }

  /**
   * A non-empty array loop that does not throw prints its turns' texts in order, over the items from
   * `offset` up to `offset + limit` or the end; only the last turn may break, and unless it does every item
   * is visited. `last` is true exactly on the final item, the break does not escape, and `forloop` is back.
   */
  lemma ArrayLoopPrints(env: Env, node: Node, st: State, items: seq<Value>, offset: nat, limit: nat)
      returns (passes: seq<Pass>, name: Option<string>)
    requires LoopsOver(env, node, st, items, offset, limit) && items != []
    requires Eval(env, node, st).Done?
    ensures var r := Eval(env, node, st);
      && r.value == Text(Texts(passes))
      && Get(r.st, FORLOOP) == Get(st, FORLOOP)
      && Get(r.st, CONTINUE) == Int(Wrap(offset + Max(1, |passes|)))
    ensures |passes| <= Window(|items|, offset, limit)
    ensures forall j :: 0 <= j < |passes| ==> IsArrayTurn(env, node, st, items, offset, limit, name, passes, j)
    ensures forall j :: 0 <= j < |passes| - 1 ==> !Broke(passes[j])
    ensures |passes| < Window(|items|, offset, limit) ==> passes != [] && Broke(passes[|passes| - 1])
  {
    assert node.ForArray?;
    hide Eval, EvalTurns, LoopsOver, Follows, Complete, IsArrayTurn, Window, Wrap, CloseLoop;
    var c;
    name, c := ArrayLoopIsTurns(env, node, st, items, offset, limit);
    var source := Items(items, offset, limit);
    passes := LoopPasses(env, node.id, name, node.body, source, |st.loops|, 0, "", NamedLoop(st, name));
    WindowCovered(items, offset, limit, passes);
    Reopened(c, Get(st, FORLOOP), source.Resume(|passes|));
    assert "" + Texts(passes) == Texts(passes);
    forall j | 0 <= j < |passes| ensures IsArrayTurn(env, node, st, items, offset, limit, name, passes, j) {
      ArrayTurn(env, node, st, items, offset, limit, name, passes, j);
    }
  }

  // ------------------------------------------------------------------ range loops

  /** How many numbers a range loop visits: `to` is no bound when it is the largest integer there is. */
  function RangeWindow(start: int, to: int, limit: int): int {
    if to == MAX_INT then Max(0, limit) else Max(0, Min(limit, to - start + 1))
  }

  lemma RangeVisits(source: Source, n: nat)
    requires source.Range? && -MAX_INT - 1 <= source.start <= MAX_INT && -MAX_INT - 1 <= source.to <= MAX_INT
    requires source.limit <= MAX_INT && n <= RangeWindow(source.start, source.to, source.limit)
    ensures source.More(n) <==> n < RangeWindow(source.start, source.to, source.limit)
    ensures n < RangeWindow(source.start, source.to, source.limit)
        ==> source.Item(n) == Some(Int(Wrap(source.start + n)))
    ensures source.to < MAX_INT && source.More(n)
        ==> (source.Last(n) <==> n == RangeWindow(source.start, source.to, source.limit) - 1)
  {
  }

  /**
   * A range loop throws only when an attribute does: whatever goes wrong later, it returns a text, no break
   * escapes, and `forloop` is back.
   */
  lemma RangeLoopReturns(env: Env, node: Node, st: State)
    requires node.ForRange?
    ensures var r := Eval(env, node, st);
      && (r.Done? <==> EvalAttributes(env, node.attributes, 0, MAX_INT, OpenLoop(st)).Some?)
      && (r.Done? ==> r.value.Text? && Get(r.st, FORLOOP) == Get(st, FORLOOP))
  {
    hide EvalTurns, EvalAttributes;
    assert Eval(env, node, st) == EvalFor(env, node, st);
    var r := EvalForRange(env, node, OpenLoop(st));
    assert r.Done? ==> r.value.Text?;
  }

  /** None of `passes` breaks, and the turn after them raises while it prints after their texts. */
  ghost predicate Fails(env: Env, id: Name, name: Option<string>, body: seq<Node>, source: Source, k: nat, n: nat,
                        text: string, st: State, passes: seq<Pass>, c: Collected)
  {
    var from, next := Final(st, passes), n + |passes|;
    && k < |from.loops| && c.ending.Raised?
    && (forall j :: 0 <= j < |passes| ==> IsTurn(source, n, passes, j) && !Broke(passes[j]))
    && source.More(next) && source.Item(next).Some?
    && c == EvalBody(env, source.Collector(), body, text + Texts(passes),
                     OpenTurn(from, id, name, source, k, next, source.Item(next).value))
  }

  lemma FailsWithMore(env: Env, id: Name, name: Option<string>, body: seq<Node>, source: Source, k: nat, n: nat,
                      text: string, st: State, p: Pass, rest: seq<Pass>, c: Collected)
    requires source.More(n) && !p.ending.Raised? && !Broke(p)
    requires Fails(env, id, name, body, source, k, n + 1, text + p.text, p.after, rest, c)
    ensures Fails(env, id, name, body, source, k, n, text, st, [p] + rest, c)
  {
    var passes := [p] + rest;
    hide EvalBody, OpenTurn, Source.More, Source.Item;
    assert n + 1 + |rest| == n + |passes| && passes[1..] == rest && Final(st, passes) == Final(p.after, rest);
    Seqs.Assoc(text, p.text, Texts(rest));
    forall j | 0 <= j < |passes| ensures IsTurn(source, n, passes, j) && !Broke(passes[j]) {
      if j > 0 {
        assert IsTurn(source, n + 1, rest, j - 1) && !Broke(rest[j - 1]);
        assert passes[j] == rest[j - 1] && n + j == n + 1 + (j - 1);
      }
    }
  }

  /** The turns of a range loop before the one that raises. */
  lemma {:induction false} LoopFails(env: Env, id: Name, name: Option<string>, body: seq<Node>, source: Source, k: nat,
                                     n: nat, text: string, st: State)
      returns (passes: seq<Pass>)
    requires k < |st.loops| && source.Range?
    requires EvalTurns(env, id, name, body, source, k, n, text, st).ending.Raised?
    ensures Follows(env, id, name, body, source, k, n, st, passes)
    ensures Fails(env, id, name, body, source, k, n, text, st, passes,
        EvalTurns(env, id, name, body, source, k, n, text, st))
    decreases Max(0, source.limit - n)
  {
    hide EvalBody, Source.At, Source.Last, Source.Resume, Source.Length;
    assert text + "" == text && source.More(n) && source.Item(n).Some?;
    var before := OpenTurn(st, id, name, source, k, n, source.Item(n).value);
    var c := EvalBody(env, source.Collector(), body, text, before);
    if c.ending.Raised? {
      passes := [];
    } else {
      BodyAfter(env, source.Collector(), body, text, "", before);
      var own := EvalBody(env, source.Collector(), body, "", before);
      var p := Pass(source.Item(n).value, before, own.text, own.ending, own.st);
      var rest := LoopFails(env, id, name, body, source, k, n + 1, c.text, c.st);
      FailsWithMore(env, id, name, body, source, k, n, text, st, p, rest,
                    EvalTurns(env, id, name, body, source, k, n, text, st));
      hide Fails;
      passes := [p] + rest;
      assert passes[1..] == rest;
    }
  }

  /** Turn `j` of a range loop: its number, what `forloop` says, where it starts, and what its body does. */
  ghost predicate IsRangeTurn(env: Env, node: Node, st: State, source: Source, passes: seq<Pass>, j: nat)
    requires node.ForRange? && source.Range? && j < |passes|
  {
    var p, from := passes[j], if j == 0 then OpenLoop(st) else passes[j - 1].after;
    && p.item == Int(Wrap(source.start + j)) && |st.loops| < |from.loops|
    && p.before == OpenTurn(from, node.id, None, source, |st.loops|, j, p.item)
    && p.before.loops[|st.loops|] == Turn(None, source.length, j, j == 0, source.Last(j))
    && EvalBody(env, InRange, node.body, "", p.before) == Collected(p.text, p.ending, p.after)
  }

  lemma RangeTurn(env: Env, node: Node, st: State, source: Source, passes: seq<Pass>, j: nat)
    requires node.ForRange? && source.Range? && j < |passes| && source.More(j)
    requires -MAX_INT - 1 <= source.start <= MAX_INT && source.limit <= MAX_INT
    requires Follows(env, node.id, None, node.body, source, |st.loops|, 0, OpenLoop(st), passes)
    ensures IsRangeTurn(env, node, st, source, passes, j)
  {
    hide EvalBody, Follows;
    PassRuns(env, node.id, None, node.body, source, |st.loops|, 0, OpenLoop(st), passes, j);
    assert 0 + j == j;
  }

  /** The numbers a range loop counts over, or `None` when an attribute throws or a bound is no number. */
  function Counted(env: Env, node: Node, st: State): Option<Source>
    requires node.ForRange?
  {
    var bounds := EvalAttributes(env, node.attributes, 0, MAX_INT, st);
    var from, to := EvalNumber(env, node.from, st), EvalNumber(env, node.to, st);
    if bounds.None? || from.None? || to.None? then None
    else Some(Range(Wrap(from.value + bounds.value.0), to.value, Wrap(to.value - from.value), bounds.value.1))
  }

  lemma {:induction false} AttributesAreInts(env: Env, attributes: seq<Attribute>, offset: int, limit: int, st: State)
    requires limit <= MAX_INT && EvalAttributes(env, attributes, offset, limit, st).Some?
    ensures EvalAttributes(env, attributes, offset, limit, st).value.1 <= MAX_INT
    decreases |attributes|
  {
    hide EvalExpr;
    if attributes != [] {
      var key, n := attributes[0].key, env.number(EvalExpr(env, attributes[0].expr, st).value);
      AttributesAreInts(env, attributes[1..], if n.Some? && key == "offset" then Wrap(n.value) else offset,
                        if n.Some? && key == "limit" then Wrap(n.value) else limit, st);
    }
  }

  lemma CountedAreInts(env: Env, node: Node, st: State)
    requires node.ForRange? && Counted(env, node, st).Some?
    ensures var source := Counted(env, node, st).value;
      && source.Range? && -MAX_INT - 1 <= source.start <= MAX_INT && -MAX_INT - 1 <= source.to <= MAX_INT
      && source.limit <= MAX_INT
  {
    hide EvalAttributes;
    AttributesAreInts(env, node.attributes, 0, MAX_INT, st);
  }

  /** How many of `passes` a range has room for, and what it leaves when they are complete. */
  lemma RangeCovered(source: Source, passes: seq<Pass>)
    requires source.Range? && -MAX_INT - 1 <= source.start <= MAX_INT && -MAX_INT - 1 <= source.to <= MAX_INT
    requires source.limit <= MAX_INT && forall j :: 0 <= j < |passes| ==> IsTurn(source, 0, passes, j)
    ensures |passes| <= RangeWindow(source.start, source.to, source.limit)
    ensures source.More(|passes|) <==> |passes| < RangeWindow(source.start, source.to, source.limit)
    ensures forall j :: 0 <= j < |passes| ==> source.More(j)
    ensures forall j :: 0 <= j < |passes| - 1 ==> !Broke(passes[j])
  {
    hide Source.More;
    forall j | 0 <= j < |passes| ensures source.More(j) && (j < |passes| - 1 ==> !Broke(passes[j])) {
      assert IsTurn(source, 0, passes, j) && 0 + j == j;
    }
    AllInWindow(source, |passes|);
    RangeVisits(source, |passes|);
  }

  lemma {:induction false} AllInWindow(source: Source, n: nat)
    requires source.Range? && -MAX_INT - 1 <= source.start <= MAX_INT && -MAX_INT - 1 <= source.to <= MAX_INT
    requires source.limit <= MAX_INT && forall j :: 0 <= j < n ==> source.More(j)
    ensures n <= RangeWindow(source.start, source.to, source.limit)
  {
    hide Source.More;
    if n > 0 {
      AllInWindow(source, n - 1);
      RangeVisits(source, n - 1);
    }
  }

  /** The turn after `passes` raises an exception having printed `text`. */
  ghost predicate CutShort(env: Env, node: Node, st: State, source: Source, passes: seq<Pass>, text: string)
    requires node.ForRange?
  {
    var from, n := Final(OpenLoop(st), passes), |passes|;
    && (forall j :: 0 <= j < n ==> !Broke(passes[j])) && |st.loops| < |from.loops|
    && var c := EvalBody(env, InRange, node.body, Texts(passes),
                         OpenTurn(from, node.id, None, source, |st.loops|, n, Int(source.At(n))));
       c.ending.Raised? && c.text == text
  }

  /**
   * A range loop whose bounds are numbers prints its turns' texts in order, over the numbers from its start.
   * Unless a turn breaks or raises it takes every turn its window has; when one raises, what that turn had
   * printed stays, and the exception goes no further.
   */
  lemma RangeLoopPrints(env: Env, node: Node, st: State) returns (passes: seq<Pass>, raised: bool)
    requires node.ForRange? && Counted(env, node, OpenLoop(st)).Some?
    ensures var source, r := Counted(env, node, OpenLoop(st)).value, Eval(env, node, st);
      var window := RangeWindow(source.start, source.to, source.limit);
      && r.Done? && r.value.Text? && Get(r.st, FORLOOP) == Get(st, FORLOOP)
      && |passes| <= window
      && (forall j :: 0 <= j < |passes| ==> IsRangeTurn(env, node, st, source, passes, j))
      && (forall j :: 0 <= j < |passes| - 1 ==> !Broke(passes[j]))
      && if raised then |passes| < window && CutShort(env, node, st, source, passes, r.value.s)
         else
           && r.value.s == Texts(passes) && Get(r.st, CONTINUE) == source.Resume(|passes|)
           && (|passes| < window ==> passes != [] && Broke(passes[|passes| - 1]))
  {
    hide Eval, EvalTurns, Follows, Complete, Fails, IsRangeTurn, RangeWindow, Wrap, Source.Resume, CloseLoop, CutShort;
    var source := Counted(env, node, OpenLoop(st)).value;
    CountedAreInts(env, node, OpenLoop(st));
    hide Counted;
    var c := RangeLoopIsTurns(env, node, st);
    raised := c.ending.Raised?;
    if raised {
      passes := LoopFails(env, node.id, None, node.body, source, |st.loops|, 0, "", OpenLoop(st));
      FailsCutsShort(env, node, st, source, passes, c);
    } else {
      passes := LoopPasses(env, node.id, None, node.body, source, |st.loops|, 0, "", OpenLoop(st));
      CompleteTurns(source, passes);
      assert "" + Texts(passes) == Texts(passes);
      Reopened(c, Get(st, FORLOOP), source.Resume(|passes|));
    }
    RangeCovered(source, passes);
    forall j | 0 <= j < |passes| ensures IsRangeTurn(env, node, st, source, passes, j) {
      RangeTurn(env, node, st, source, passes, j);
    }
  }

  lemma CompleteTurns(source: Source, passes: seq<Pass>)
    requires Complete(source, 0, passes)
    ensures forall j :: 0 <= j < |passes| ==> IsTurn(source, 0, passes, j)
    ensures source.More(|passes|) ==> passes != [] && Broke(passes[|passes| - 1])
  {
    assert 0 + |passes| == |passes|;
  }

  lemma FailsCutsShort(env: Env, node: Node, st: State, source: Source, passes: seq<Pass>, c: Collected)
    requires node.ForRange? && source.Range?
    requires Fails(env, node.id, None, node.body, source, |st.loops|, 0, "", OpenLoop(st), passes, c)
    ensures CutShort(env, node, st, source, passes, c.text) && source.More(|passes|)
    ensures forall j :: 0 <= j < |passes| ==> IsTurn(source, 0, passes, j)
  {
    hide EvalBody, Source.At, Source.More, IsTurn;
    assert "" + Texts(passes) == Texts(passes) && 0 + |passes| == |passes|;
  }

  /** The turns of a range loop, and how it returns when one of them raises. */
  lemma RangeLoopIsTurns(env: Env, node: Node, st: State) returns (c: Collected)
    requires node.ForRange? && Counted(env, node, OpenLoop(st)).Some?
    ensures c == EvalTurns(env, node.id, None, node.body, Counted(env, node, OpenLoop(st)).value, |st.loops|, 0, "",
        OpenLoop(st))
    ensures Eval(env, node, st) == Done(Text(c.text), CloseLoop(c.st, Get(st, FORLOOP)))
    ensures Get(CloseLoop(c.st, Get(st, FORLOOP)), FORLOOP) == Get(st, FORLOOP)
  {
    hide EvalTurns, EvalAttributes, EvalNumber;
    assert Eval(env, node, st) == EvalFor(env, node, st);
    var inner := OpenLoop(st);
    assert |inner.loops| - 1 == |st.loops|;
    c := EvalTurns(env, node.id, None, node.body, Counted(env, node, inner).value, |st.loops|, 0, "", inner);
    assert EvalForRange(env, node, inner) == Done(Text(c.text), c.st);
  }

  // --------------------------------------------------------- breaks and branches

  /** A break raised by a child, however deep, ends the body there: nothing after it is looked at. */
  lemma {:induction false} BreakStopsBody(env: Env, place: Place, nodes: seq<Node>, text: string, st: State, i: nat,
                                          b: State)
    requires i < |nodes| && EvalBody(env, place, nodes[..i], text, st).ending.Ran?
    requires var c := EvalBody(env, place, nodes[..i], text, st); Eval(env, nodes[i], c.st) == Done(Break, b)
    ensures EvalBody(env, place, nodes, text, st)
         == Collected(EvalBody(env, place, nodes[..i], text, st).text, Stopped(Break), b)
    decreases i
  {
    hide Eval, Pieces, AppendAll;
    if i > 0 {
      var r := Eval(env, nodes[0], st);
      assert nodes[..i][0] == nodes[0] && nodes[..i][1..] == nodes[1..][..i - 1];
      BreakStopsBody(env, place, nodes[1..], Collect(env, place, r.value, text).text, r.st, i - 1, b);
    }
  }

  /** A conditional renders the block of its first branch that applies, or nothing. */
  lemma {:induction false} IfTakesFirst(env: Env, branches: seq<Branch>, negated: bool, st: State, i: nat)
    requires i <= |branches|
    requires forall j :: 0 <= j < i ==>
               EvalExpr(env, branches[j].condition, st).Some?
                   && Truthy(EvalExpr(env, branches[j].condition, st).value) == negated
    requires i < |branches| ==>
               EvalExpr(env, branches[i].condition, st).Some?
                   && Truthy(EvalExpr(env, branches[i].condition, st).value) != negated
    ensures Eval(env, If(branches, negated), st)
         == if i < |branches| then EvalBlock(env, branches[i].body, st)
            else Done(if negated then Text("") else Nil, st)
    decreases i
  {
    hide EvalBlock, EvalExpr;
    assert Eval(env, If(branches, negated), st) == EvalIf(env, branches, negated, st);
    if i > 0 {
      IfTakesFirst(env, branches[1..], negated, st, i - 1);
      assert Eval(env, If(branches[1..], negated), st) == EvalIf(env, branches[1..], negated, st);
    }
  }

  /** `when` with its terms and its block. */
  datatype When = When(terms: seq<Expr>, body: seq<Node>)

  function Terms(terms: seq<Expr>): (parts: seq<Part>)
    ensures |parts| == |terms|
  {
    if terms == [] then [] else [Term(terms[0])] + Terms(terms[1..])
  }

  /** The list the tree grammar makes: an `else` is one more `when` whose term is the subject again. */
  function Flatten(whens: seq<When>): seq<Part> {
    if whens == [] then [] else Terms(whens[0].terms) + ([Body(whens[0].body)] + Flatten(whens[1..]))
  }

  predicate Evaluates(env: Env, e: Expr, st: State) { EvalExpr(env, e, st).Some? }

  predicate Equals(env: Env, subject: Value, e: Expr, st: State) {
    Evaluates(env, e, st) && env.equal(subject, EvalExpr(env, e, st).value)
  }

  ghost predicate Hits(env: Env, subject: Value, when: When, st: State) {
    exists j :: 0 <= j < |when.terms| && Equals(env, subject, when.terms[j], st)
  }

  lemma {:induction false} TermsReachBody(env: Env, subject: Value, terms: seq<Expr>, body: seq<Node>, rest: seq<Part>,
                                          hit: bool, st: State)
    requires forall j :: 0 <= j < |terms| ==> Evaluates(env, terms[j], st)
    ensures EvalTerms(env, subject, Terms(terms) + ([Body(body)] + rest), hit, st)
         == if hit || Hits(env, subject, When(terms, body), st) then EvalBlock(env, body, st)
             else EvalCase(env, subject, rest, st)
    decreases |terms|
  {
    hide EvalBlock, EvalCase, EvalExpr, Hits;
    var parts := Terms(terms) + ([Body(body)] + rest);
    if terms == [] {
      assert parts == [Body(body)] + rest && parts[1..] == rest;
      assert !Hits(env, subject, When(terms, body), st) by { NoTermsNoHit(env, subject, body, st); }
    } else {
      assert parts[0] == Term(terms[0]) && parts[1..] == Terms(terms[1..]) + ([Body(body)] + rest);
      assert Evaluates(env, terms[0], st);
      var hit1 := hit || Equals(env, subject, terms[0], st);
      TermsReachBody(env, subject, terms[1..], body, rest, hit1, st);
      HitsSplit(env, subject, terms, body, st);
    }
  }

  lemma NoTermsNoHit(env: Env, subject: Value, body: seq<Node>, st: State)
    ensures !Hits(env, subject, When([], body), st)
  {
  }

  lemma HitsSplit(env: Env, subject: Value, terms: seq<Expr>, body: seq<Node>, st: State)
    requires terms != []
    ensures Hits(env, subject, When(terms, body), st)
       <==> Equals(env, subject, terms[0], st) || Hits(env, subject, When(terms[1..], body), st)
  {
    if j :| 0 <= j < |terms[1..]| && Equals(env, subject, terms[1..][j], st) {
      assert Equals(env, subject, terms[j + 1], st);
    }
    if j :| 0 < j < |terms| && Equals(env, subject, terms[j], st) {
      assert Equals(env, subject, terms[1..][j - 1], st);
    }
  }

  /** A `case` renders the block of its first `when` that has a term equal to the subject, or nothing. */
  lemma {:induction false} CaseTakesFirst(env: Env, subject: Value, whens: seq<When>, st: State, i: nat)
    requires i <= |whens| && forall w :: 0 <= w < |whens| ==> whens[w].terms != []
    requires forall w, j :: 0 <= w < |whens| && w <= i && 0 <= j < |whens[w].terms| ==>
               Evaluates(env, whens[w].terms[j], st)
    requires forall w :: 0 <= w < i ==> !Hits(env, subject, whens[w], st)
    requires i < |whens| ==> Hits(env, subject, whens[i], st)
    ensures EvalCase(env, subject, Flatten(whens), st)
         == if i < |whens| then EvalBlock(env, whens[i].body, st) else Done(Nil, st)
    decreases i
  {
    hide EvalBlock, EvalExpr, Hits, EvalTerms;
    if whens != [] {
      var parts := Flatten(whens);
      assert |parts| > 1 && parts[0] == Term(whens[0].terms[0]);
      assert EvalCase(env, subject, parts, st) == EvalTerms(env, subject, parts, false, st);
      TermsReachBody(env, subject, whens[0].terms, whens[0].body, Flatten(whens[1..]), false, st);
      if i > 0 {
        CaseTakesFirst(env, subject, whens[1..], st, i - 1);
      }
    }
  }
}
