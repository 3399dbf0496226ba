/** What scripts get when they render a file by name. */
module LiquidRendering {
  import opened LiquidSyntax
  import opened LiquidEval
  import opened LiquidTraces
  import opened LiquidPrinting
  import opened LiquidRenderer
  import opened Options

  /** Without the file, or a parse of its prepared text, it throws; otherwise it prints the leaves it reaches. */
  lemma RenderPrintsLeaves(env: Env, prepare: string -> string, name: string, st: State) returns (w: Walk)
    ensures var file, r := env.read("templates/" + name + ".liquid"), RenderAfresh(env, prepare, name, st);
      if file.None? then r == Thrown(NotFound, st)
      else if env.parse(prepare(file.value)).None? then r == Thrown(Failed, st)
      else
        && IsWalk(env, w) && w.nodes == env.parse(prepare(file.value)).value
        && w.place == InBlock && w.text == "" && w.before == st
        && (r.Thrown? <==> w.c.ending.Raised?)
        && (r.Done? ==> r.value == LiquidSyntax.Text(if w.c.ending.Ran? then Joined(LeavesOfWalk(env, w)) else ""))
  {
    var file := env.read("templates/" + name + ".liquid");
    var nodes := if file.None? then None else env.parse(prepare(file.value));
    hide IsWalk, EvalTemplate, LeavesOfWalk, Joined;
    w := TemplatePrintsLeaves(env, if nodes.Some? then nodes.value else [], st);
  }
}
