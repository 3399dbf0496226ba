/** What must have happened before: why a context is closed, due to be closed, or registered. */
module ContextHistory {
  import opened ContextRegistry
  import opened Options

  /** Step `i` of a run, and the state it is taken in. */
  ghost predicate TakenAt(steps: seq<Step>, i: int, s: State, step: Step) {
    0 <= i < |steps| && steps[i] == step && Run(INIT, steps[..i]) == Some(s)
  }

  /** The timer of `c` fires, or a thread that removes at once closes the context it took out. */
  predicate Closes(s: State, step: Step, c: Context) {
    step == TimerFires(c) || (step.CloseDropped? && PcOf(s, step.t) == Detached(c, true))
  }

  /** A replacement schedules the context it read, or a thread that does not remove at once the one it took out. */
  predicate Schedules(s: State, step: Step, c: Context) {
    || (step.SchedulePrevious? && PcOf(s, step.t).Section? && PcOf(s, step.t).op.Replace?
        && PcOf(s, step.t).at == HasPrevious(Some(c)))
    || (step.CloseDropped? && PcOf(s, step.t) == Detached(c, false))
  }

  ghost predicate ClosesAt(steps: seq<Step>, i: int, c: Context) {
    exists s, step :: TakenAt(steps, i, s, step) && Closes(s, step, c)
  }

  ghost predicate SchedulesAt(steps: seq<Step>, i: int, c: Context) {
    exists s, step :: TakenAt(steps, i, s, step) && Schedules(s, step, c)
  }

  /** A run is a run and one more step. */
  lemma LastStep(steps: seq<Step>, s: State) returns (before: State, step: Step)
    requires steps != [] && Run(INIT, steps) == Some(s)
    ensures steps == steps[..|steps| - 1] + [step]
    ensures Run(INIT, steps[..|steps| - 1]) == Some(before) && Apply(before, step) == Some(s)
    ensures TakenAt(steps, |steps| - 1, before, step)
  {
    hide Apply;
    step := steps[|steps| - 1];
    var init := steps[..|steps| - 1];
    assert steps == init + [step];
    RunSplit(INIT, init, [step]);
    before := Run(INIT, init).value;
    assert [step][1..] == [];
    assert Run(before, [step]) == (if Apply(before, step).None? then None else Run(Apply(before, step).value, []));
  }

  lemma {:induction false} RunSplit(s: State, a: seq<Step>, b: seq<Step>)
    requires Run(s, a + b).Some?
    ensures Run(s, a).Some? && Run(Run(s, a).value, b) == Run(s, a + b)
    decreases |a|
  {
    hide Apply;
    if a == [] {
      assert a + b == b;
    } else {
      assert (a + b)[0] == a[0] && (a + b)[1..] == a[1..] + b;
      RunSplit(Apply(s, a[0]).value, a[1..], b);
    }
  }

  /** What was taken before the last step is what was taken. */
  lemma TakenEarlier(steps: seq<Step>, step: Step, i: int, s: State, a: Step)
    requires 0 <= i < |steps|
    ensures TakenAt(steps + [step], i, s, a) <==> TakenAt(steps, i, s, a)
  {
    hide Run;
    assert (steps + [step])[..i] == steps[..i];
  }

  lemma ClosesEarlier(steps: seq<Step>, step: Step, i: int, c: Context)
    requires 0 <= i < |steps|
    ensures ClosesAt(steps + [step], i, c) <==> ClosesAt(steps, i, c)
    ensures SchedulesAt(steps + [step], i, c) <==> SchedulesAt(steps, i, c)
  {
    hide TakenAt, Closes, Schedules;
    forall s, a ensures TakenAt(steps + [step], i, s, a) <==> TakenAt(steps, i, s, a) {
      TakenEarlier(steps, step, i, s, a);
    }
  }

  /** The last step takes place in one state only. */
  lemma ClosesLast(steps: seq<Step>, before: State, step: Step, c: Context)
    requires TakenAt(steps, |steps| - 1, before, step)
    ensures ClosesAt(steps, |steps| - 1, c) <==> Closes(before, step, c)
    ensures SchedulesAt(steps, |steps| - 1, c) <==> Schedules(before, step, c)
  {
    hide Closes, Schedules, Run;
    var n := |steps| - 1;
    forall s, a | TakenAt(steps, n, s, a) ensures s == before && a == step {}
  }

  // ---------------------------------------------------------------- closing, scheduling

  predicate WithinBlock(step: Step) {
    step.Read? || step.SchedulePrevious? || step.CreateOk? || step.CreateFail? || step.Put? || step.Exit?
  }

  /** The entries of a state, and which contexts are due to be closed, closed, and known. */
  predicate Has(s: State, existing: map<Id, Context>, scheduled: set<Context>, closed: set<Context>,
                idOf: map<Context, Id>)
  {
    s.existing == existing && s.scheduled == scheduled && s.closed == closed && s.idOf == idOf
  }

  /** What a step inside the block changes. */
  predicate InsideEffect(s: State, pc: Pc, step: Step, s': State)
    requires pc.Section?
  {
    match step
    case SchedulePrevious(_) =>
      && pc.at.HasPrevious?
      && var scheduled := if pc.at.previous.Some? then s.scheduled + {pc.at.previous.value} else s.scheduled;
         Has(s', s.existing, scheduled, s.closed, s.idOf)
    case CreateOk(_) => Has(s', s.existing, s.scheduled, s.closed, s.idOf[s.next := pc.op.id])
    case Put(_) => pc.at.Created? && Has(s', s.existing[pc.op.id := pc.at.context], s.scheduled, s.closed, s.idOf)
    case _ => WithinBlock(step) && Has(s', s.existing, s.scheduled, s.closed, s.idOf)
  }

  lemma InsideChanges(s: State, t: Thread, pc: Pc, step: Step)
    requires pc.Section? && ApplyInside(s, t, pc, step).Some?
    ensures InsideEffect(s, pc, step, ApplyInside(s, t, pc, step).value)
  {
    if step.CreateOk? || step.Put? || step.SchedulePrevious? {
      InsideWrites(s, t, pc, step);
    } else if step.Read? {
      InsideReads(s, t, pc, step);
    } else {
      InsideLeaves(s, t, pc, step);
    }
    hide ApplyInside, InsideEffect;
  }

  lemma InsideWrites(s: State, t: Thread, pc: Pc, step: Step)
    requires pc.Section? && ApplyInside(s, t, pc, step).Some? && (step.CreateOk? || step.Put? || step.SchedulePrevious?)
    ensures InsideEffect(s, pc, step, ApplyInside(s, t, pc, step).value)
  {
    hide Bump, Count;
  }

  lemma InsideReads(s: State, t: Thread, pc: Pc, step: Step)
    requires pc.Section? && ApplyInside(s, t, pc, step).Some? && step.Read?
    ensures InsideEffect(s, pc, step, ApplyInside(s, t, pc, step).value)
  {
    var registered := if pc.op.id in s.existing then Some(s.existing[pc.op.id]) else None;
    assert ApplyInside(s, t, pc, step).value == Goto(s, t, pc.(at := AfterRead(pc.op, registered)));
    hide ApplyInside;
  }

  lemma InsideLeaves(s: State, t: Thread, pc: Pc, step: Step)
    requires pc.Section? && ApplyInside(s, t, pc, step).Some?
    requires !step.CreateOk? && !step.Put? && !step.SchedulePrevious? && !step.Read?
    ensures InsideEffect(s, pc, step, ApplyInside(s, t, pc, step).value)
  {
    hide Bump, Count;
  }

  lemma InsideMoves(s: State, t: Thread, pc: Pc, step: Step)
    requires pc.Section? && ApplyInside(s, t, pc, step).Some?
    ensures var s' := ApplyInside(s, t, pc, step).value;
      && t in s'.pcs && s'.pcs == s.pcs[t := s'.pcs[t]]
      && (s'.pcs[t].Idle? || (s'.pcs[t].Section? && s'.pcs[t].op == pc.op))
  {
    if step.Exit? {
      Leaves(s, t, pc, step);
    } else if step.Read? {
      ReadsOn(s, t, pc, step);
    } else if step.CreateFail? {
      FailsOn(s, t, pc, step);
    } else {
      WritesOn(s, t, pc, step);
    }
    hide ApplyInside;
  }

  lemma WritesOn(s: State, t: Thread, pc: Pc, step: Step)
    requires pc.Section? && ApplyInside(s, t, pc, step).Some? && !step.Exit? && !step.Read? && !step.CreateFail?
    ensures exists at :: ApplyInside(s, t, pc, step).value.pcs == s.pcs[t := pc.(at := at)]
  {
    hide Bump, Count;
    var s' := ApplyInside(s, t, pc, step).value;
    assert s'.pcs == s.pcs[t := pc.(at := s'.pcs[t].at)];
  }

  lemma ReadsOn(s: State, t: Thread, pc: Pc, step: Step)
    requires pc.Section? && ApplyInside(s, t, pc, step).Some? && step.Read?
    ensures exists at :: ApplyInside(s, t, pc, step).value.pcs == s.pcs[t := pc.(at := at)]
  {
    var registered := if pc.op.id in s.existing then Some(s.existing[pc.op.id]) else None;
    var at := AfterRead(pc.op, registered);
    assert ApplyInside(s, t, pc, step).value == Goto(s, t, pc.(at := at));
    hide ApplyInside;
  }

  lemma FailsOn(s: State, t: Thread, pc: Pc, step: Step)
    requires pc.Section? && ApplyInside(s, t, pc, step).Some? && step.CreateFail?
    ensures ApplyInside(s, t, pc, step).value.pcs == s.pcs[t := pc.(at := Leaving(None))]
  {
  }

  lemma Leaves(s: State, t: Thread, pc: Pc, step: Step)
    requires pc.Section? && ApplyInside(s, t, pc, step).Some? && step.Exit?
    ensures ApplyInside(s, t, pc, step).value.pcs == s.pcs[t := Idle]
  {
  }

  lemma TakenInside(s: State, step: Step)
    requires Apply(s, step).Some? && WithinBlock(step)
    ensures PcOf(s, step.t).Section? && Apply(s, step) == ApplyInside(s, step.t, PcOf(s, step.t), step)
  {
    hide ApplyInside, Bump, Count;
  }

  /** What a step outside of it changes. */
  predicate OutsideEffect(s: State, step: Step, s': State) {
    match step
    case TimerFires(context) =>
      context in s.scheduled && Has(s', s.existing, s.scheduled, s.closed + {context}, s.idOf)
    case CloseDropped(t) =>
      var pc := PcOf(s, t);
      && pc.Detached?
      && if pc.immediately then Has(s', s.existing, s.scheduled, s.closed + {pc.context}, s.idOf)
         else Has(s', s.existing, s.scheduled + {pc.context}, s.closed, s.idOf)
    case DropContext(t) =>
      PcOf(s, t).LockDropped? && Has(s', s.existing - {PcOf(s, t).id}, s.scheduled, s.closed, s.idOf)
    case DropCancelled(id) => Has(s', s.existing - {id}, s.scheduled, s.closed, s.idOf)
    case _ => Has(s', s.existing, s.scheduled, s.closed, s.idOf)
  }

  lemma OutsideChanges(s: State, step: Step)
    requires Apply(s, step).Some? && !WithinBlock(step)
    ensures OutsideEffect(s, step, Apply(s, step).value)
  {
    if step.DropContext? {
      DropChanges(s, step.t);
    } else if step.CloseDropped? {
      CloseChanges(s, step.t);
    } else {
      OtherChanges(s, step);
    }
    hide Apply, OutsideEffect;
  }

  lemma DropChanges(s: State, t: Thread)
    requires Apply(s, DropContext(t)).Some?
    ensures OutsideEffect(s, DropContext(t), Apply(s, DropContext(t)).value)
  {
    hide ApplyInside, Bump, Count, PcOf;
    var s', pc := Apply(s, DropContext(t)).value, PcOf(s, t);
    if pc.id in s.existing {
      assert s' == Goto(Drop(s, pc.id), t, Detached(s.existing[pc.id], pc.immediately));
    } else {
      assert s' == Goto(s, t, Idle) && s.existing - {pc.id} == s.existing;
    }
    hide Apply;
  }

  lemma CloseChanges(s: State, t: Thread)
    requires Apply(s, CloseDropped(t)).Some?
    ensures OutsideEffect(s, CloseDropped(t), Apply(s, CloseDropped(t)).value)
  {
    hide ApplyInside, PcOf;
    assert Apply(s, CloseDropped(t)).value == CloseOrSchedule(s, t, PcOf(s, t));
    hide Apply;
  }

  lemma OtherChanges(s: State, step: Step)
    requires Apply(s, step).Some? && !WithinBlock(step) && !step.DropContext? && !step.CloseDropped?
    ensures OutsideEffect(s, step, Apply(s, step).value)
  {
    hide ApplyInside, Bump, Count, PcOf;
  }

  /** Where threads get to outside of it. */
  lemma OutsideMoves(s: State, step: Step)
    requires Apply(s, step).Some? && !WithinBlock(step)
    ensures MovesOutside(s, step, Apply(s, step).value)
  {
    if step.DropContext? || step.CloseDropped? || step.DropLock? {
      MovesInRemoval(s, step);
    } else {
      MovesElsewhere(s, step);
    }
    hide Apply, MovesOutside;
  }

  predicate MovesOutside(s: State, step: Step, s': State)
    requires !WithinBlock(step)
  {
    if step.TimerFires? || step.DropCancelled? then s'.pcs == s.pcs
    else
      && step.t in s'.pcs && s'.pcs == s.pcs[step.t := s'.pcs[step.t]]
      && Leads(PcOf(s, step.t), s'.pcs[step.t], step, s.existing)
  }

  lemma MovesInRemoval(s: State, step: Step)
    requires Apply(s, step).Some? && (step.DropContext? || step.CloseDropped? || step.DropLock?)
    ensures MovesOutside(s, step, Apply(s, step).value)
  {
    hide ApplyInside, PcOf;
    var t, pc := step.t, PcOf(s, step.t);
    if step.DropLock? {
      assert Apply(s, step).value.pcs == s.pcs[t := LockDropped(pc.id, pc.immediately)];
    } else if step.CloseDropped? {
      assert Apply(s, step).value.pcs == s.pcs[t := Idle];
    } else {
      DropMoves(s, t);
    }
    hide Apply;
  }

  lemma DropMoves(s: State, t: Thread)
    requires Apply(s, DropContext(t)).Some?
    ensures var pc := PcOf(s, t);
      pc.LockDropped? && Apply(s, DropContext(t)).value.pcs
        == s.pcs[t := if pc.id in s.existing then Detached(s.existing[pc.id], pc.immediately) else Idle]
  {
    hide ApplyInside, Bump, Count, PcOf;
  }

  lemma MovesElsewhere(s: State, step: Step)
    requires Apply(s, step).Some? && !WithinBlock(step)
    requires !(step.DropContext? || step.CloseDropped? || step.DropLock?)
    ensures MovesOutside(s, step, Apply(s, step).value)
  {
    hide ApplyInside, Bump, Count, PcOf;
  }

  /** The places a step outside the block leads to. */
  predicate Leads(pc: Pc, pc': Pc, step: Step, existing: map<Id, Context>) {
    match step
    case Call(_, op) => pc' == Calling(op)
    case TakeLock(_) => pc.Calling? && pc'.Blocked? && pc'.op == pc.op
    case Enter(_) => pc.Blocked? && pc'.Section? && pc'.op == pc.op
    case CallRemove(_, id, immediately) => pc' == Removing(id, immediately)
    case DropLock(_) => pc.Removing? && pc' == LockDropped(pc.id, pc.immediately)
    case DropContext(_) =>
      pc.LockDropped?
      && pc' == if pc.id in existing then Detached(existing[pc.id], pc.immediately) else Idle
    case _ => pc'.Idle?
  }

  lemma ClosingStep(s: State, step: Step, c: Context)
    requires Apply(s, step).Some?
    ensures c in Apply(s, step).value.closed <==> c in s.closed || Closes(s, step, c)
  {
    if WithinBlock(step) {
      TakenInside(s, step);
      InsideChanges(s, step.t, PcOf(s, step.t), step);
    } else {
      OutsideChanges(s, step);
    }
    hide Apply, ApplyInside;
  }

  lemma SchedulingStep(s: State, step: Step, c: Context)
    requires Inv(s) && Apply(s, step).Some?
    ensures c in Apply(s, step).value.scheduled <==> c in s.scheduled || Schedules(s, step, c)
  {
    if WithinBlock(step) {
      TakenInside(s, step);
      InsideChanges(s, step.t, PcOf(s, step.t), step);
      assert ThreadInv(s, s.pcs[step.t]);
    } else {
      OutsideChanges(s, step);
    }
    hide Apply, ApplyInside, Inv;
  }

  /** In every run a context is closed exactly when its timer fired, or a thread removing at once closed it. */
  lemma {:induction false} ClosedOnlyByTimerOrRemoval(steps: seq<Step>, s: State, c: Context)
    requires Run(INIT, steps) == Some(s)
    ensures c in s.closed <==> exists i :: ClosesAt(steps, i, c)
    decreases |steps|
  {
    hide Apply, Closes;
    if steps == [] {
      assert s == INIT && forall i :: !ClosesAt(steps, i, c);
    } else {
      var n := |steps| - 1;
      var before, step := LastStep(steps, s);
      ClosedOnlyByTimerOrRemoval(steps[..n], before, c);
      ClosingStep(before, step, c);
      ClosesLast(steps, before, step, c);
      hide ClosesAt, Run;
      ClosesSplit(steps, c);
    }
  }

  lemma ClosesSplit(steps: seq<Step>, c: Context)
    requires steps != []
    ensures var n := |steps| - 1;
      && ((exists i :: ClosesAt(steps, i, c)) <==> (exists i :: ClosesAt(steps[..n], i, c)) || ClosesAt(steps, n, c))
      && ((exists i :: SchedulesAt(steps, i, c)) <==>
            (exists i :: SchedulesAt(steps[..n], i, c)) || SchedulesAt(steps, n, c))
  {
    var n := |steps| - 1;
    forall i ensures ClosesAt(steps, i, c) <==> ClosesAt(steps[..n], i, c) || (i == n && ClosesAt(steps, n, c))
      ensures SchedulesAt(steps, i, c) <==> SchedulesAt(steps[..n], i, c) || (i == n && SchedulesAt(steps, n, c))
    {
      assert steps == steps[..n] + [steps[n]];
      if 0 <= i < n {
        ClosesEarlier(steps[..n], steps[n], i, c);
      }
    }
  }

  /** And it is due to be closed exactly when a replacement or a removal scheduled it. */
  lemma {:induction false} ScheduledOnlyByReplaceOrRemove(steps: seq<Step>, s: State, c: Context)
    requires Run(INIT, steps) == Some(s)
    ensures c in s.scheduled <==> exists i :: SchedulesAt(steps, i, c)
    decreases |steps|
  {
    hide Apply, Schedules, Inv;
    if steps == [] {
      assert s == INIT && forall i :: !SchedulesAt(steps, i, c);
    } else {
      var n := |steps| - 1;
      var before, step := LastStep(steps, s);
      ScheduledOnlyByReplaceOrRemove(steps[..n], before, c);
      ReachableInv(before);
      SchedulingStep(before, step, c);
      ClosesLast(steps, before, step, c);
      hide SchedulesAt, Run;
      ClosesSplit(steps, c);
    }
  }

  /** A timer fires only for a context that was scheduled before. */
  lemma TimerAfterScheduling(steps: seq<Step>, s: State, i: nat, c: Context)
    requires Run(INIT, steps) == Some(s) && i < |steps| && steps[i] == TimerFires(c)
    ensures exists j :: j < i && SchedulesAt(steps, j, c)
  {
    hide Schedules;
    var start, rest := steps[..i], steps[i..];
    assert steps == start + rest;
    RunSplit(INIT, start, rest);
    var before := Run(INIT, start).value;
    assert c in before.scheduled;
    hide Apply, Run;
    ScheduledOnlyByReplaceOrRemove(start, before, c);
    var j :| SchedulesAt(start, j, c);
    SchedulesInMore(start, rest, j, c);
  }

  lemma SchedulesInMore(a: seq<Step>, b: seq<Step>, j: int, c: Context)
    requires SchedulesAt(a, j, c)
    ensures 0 <= j < |a| && SchedulesAt(a + b, j, c)
  {
    hide Schedules, Run;
    var s, step :| TakenAt(a, j, s, step) && Schedules(s, step, c);
    assert (a + b)[..j] == a[..j] && (a + b)[j] == a[j];
    assert TakenAt(a + b, j, s, step);
  }

  // ------------------------------------------------------------------------- callers

  /** What a thread is doing was asked for. */
  ghost predicate AskedFor(steps: seq<Step>, s: State, t: Thread, pc: Pc) {
    match pc
    case Removing(id, immediately) => CallRemove(t, id, immediately) in steps
    case LockDropped(id, immediately) => CallRemove(t, id, immediately) in steps
    case Detached(c, immediately) => c in s.idOf && CallRemove(t, s.idOf[c], immediately) in steps
    case Calling(op) => Call(t, op) in steps
    case Blocked(op, _) => Call(t, op) in steps
    case Section(op, _, _) => Call(t, op) in steps
    case Idle => true
  }

  lemma AskedStep(steps: seq<Step>, s: State, step: Step, t: Thread)
    requires Inv(s) && Apply(s, step).Some? && AskedFor(steps, s, t, PcOf(s, t))
    ensures AskedFor(steps + [step], Apply(s, step).value, t, PcOf(Apply(s, step).value, t))
  {
    hide AskedFor, Leads;
    NothingForgotten(s, step);
    assert forall id :: id in s.existing ==> s.existing[id] in s.idOf && s.idOf[s.existing[id]] == id;
    hide Inv;
    var s' := Apply(s, step).value;
    if WithinBlock(step) {
      TakenInside(s, step);
      InsideMoves(s, step.t, PcOf(s, step.t), step);
      hide Apply, ApplyInside;
      if t == step.t {
        AskedInside(steps, s, step, s');
      } else {
        AskedStill(steps, s, step, s', t);
      }
    } else {
      OutsideMoves(s, step);
      hide Apply;
      if !step.TimerFires? && !step.DropCancelled? && t == step.t {
        AskedOutside(steps, s, step, s');
      } else {
        AskedStill(steps, s, step, s', t);
      }
    }
  }

  lemma AskedStill(steps: seq<Step>, s: State, step: Step, s': State, t: Thread)
    requires AskedFor(steps, s, t, PcOf(s, t)) && PcOf(s', t) == PcOf(s, t)
    requires forall c :: c in s.idOf ==> c in s'.idOf && s'.idOf[c] == s.idOf[c]
    ensures AskedFor(steps + [step], s', t, PcOf(s', t))
  {
    hide PcOf;
  }

  lemma AskedInside(steps: seq<Step>, s: State, step: Step, s': State)
    requires WithinBlock(step) && PcOf(s, step.t).Section? && AskedFor(steps, s, step.t, PcOf(s, step.t))
    requires var pc := PcOf(s', step.t); pc.Idle? || (pc.Section? && pc.op == PcOf(s, step.t).op)
    ensures AskedFor(steps + [step], s', step.t, PcOf(s', step.t))
  {
    hide PcOf;
  }

  lemma AskedOutside(steps: seq<Step>, s: State, step: Step, s': State)
    requires !WithinBlock(step) && !step.TimerFires? && !step.DropCancelled?
    requires AskedFor(steps, s, step.t, PcOf(s, step.t)) && Leads(PcOf(s, step.t), PcOf(s', step.t), step, s.existing)
    requires forall c :: c in s.idOf ==> c in s'.idOf && s'.idOf[c] == s.idOf[c]
    requires forall id :: id in s.existing ==> s.existing[id] in s.idOf && s.idOf[s.existing[id]] == id
    ensures AskedFor(steps + [step], s', step.t, PcOf(s', step.t))
  {
    hide PcOf;
    assert step in steps + [step];
  }

  /** Contexts are never forgotten. */
  lemma NothingForgotten(s: State, step: Step)
    requires Inv(s) && Apply(s, step).Some?
    ensures var s' := Apply(s, step).value;
      && s.scheduled <= s'.scheduled
      && forall c :: c in s.idOf ==> c in s'.idOf && s'.idOf[c] == s.idOf[c]
  {
    assert s.next !in s.idOf;
    hide Inv;
    if WithinBlock(step) {
      TakenInside(s, step);
      InsideChanges(s, step.t, PcOf(s, step.t), step);
    } else {
      OutsideChanges(s, step);
    }
    hide Apply, ApplyInside;
  }

  lemma {:induction false} EveryoneWasAsked(steps: seq<Step>, s: State, t: Thread)
    requires Run(INIT, steps) == Some(s)
    ensures AskedFor(steps, s, t, PcOf(s, t))
    decreases |steps|
  {
    hide Apply, Inv;
    if steps != [] {
      var n := |steps| - 1;
      var before, step := LastStep(steps, s);
      hide Run;
      EveryoneWasAsked(steps[..n], before, t);
      ReachableInv(before);
      AskedStep(steps[..n], before, step, t);
    }
  }

  ghost predicate WhyClosed(steps: seq<Step>, s: State, c: Context) {
    c in s.closed ==>
      c in s.idOf
      && ((c in s.scheduled && TimerFires(c) in steps) || exists t :: CallRemove(t, s.idOf[c], true) in steps)
  }

  lemma OpenStep(steps: seq<Step>, s: State, step: Step, c: Context)
    requires Inv(s) && Apply(s, step).Some? && WhyClosed(steps, s, c)
    requires forall t :: AskedFor(steps, s, t, PcOf(s, t))
    ensures WhyClosed(steps + [step], Apply(s, step).value, c)
  {
    var s' := Apply(s, step).value;
    ClosingStep(s, step, c);
    NothingForgotten(s, step);
    assert forall d :: d in s.scheduled ==> d in s.idOf;
    if !WithinBlock(step) {
      OutsideChanges(s, step);
    }
    hide Apply, Inv;
    assert step in steps + [step] && forall a :: a in steps ==> a in steps + [step];
    if c in s.closed {
      if t :| CallRemove(t, s.idOf[c], true) in steps {
        assert CallRemove(t, s'.idOf[c], true) in steps + [step];
      }
    } else if c in s'.closed && step.CloseDropped? {
      assert AskedFor(steps, s, step.t, PcOf(s, step.t));
      assert CallRemove(step.t, s'.idOf[c], true) in steps + [step];
    }
  }

  /**
   * So a context in use stays open: it is closed only after it was scheduled and its timer fired, or after a
   * thread asked for the immediate removal of its id.
   */
  lemma {:induction false} OpenUntilTimerOrRemoval(steps: seq<Step>, s: State, c: Context)
    requires Run(INIT, steps) == Some(s)
    ensures c in s.closed ==>
      c in s.idOf
      && ((c in s.scheduled && TimerFires(c) in steps) || exists t :: CallRemove(t, s.idOf[c], true) in steps)
    decreases |steps|
  {
    hide Apply, Inv;
    if steps == [] {
      assert s == INIT;
    } else {
      var n := |steps| - 1;
      var before, step := LastStep(steps, s);
      hide Run;
      OpenUntilTimerOrRemoval(steps[..n], before, c);
      ReachableInv(before);
      forall t ensures AskedFor(steps[..n], before, t, PcOf(before, t)) {
        EveryoneWasAsked(steps[..n], before, t);
      }
      hide AskedFor;
      OpenStep(steps[..n], before, step, c);
    }
  }

  // -------------------------------------------------------------------- registration

  /** A thread puts the context it created for `id`. */
  predicate Puts(s: State, step: Step, id: Id, c: Context) {
    step.Put? && PcOf(s, step.t).Section? && PcOf(s, step.t).op.id == id
    && PcOf(s, step.t).at.Created? && PcOf(s, step.t).at.context == c
  }

  /** A removal or a cancelled timer takes the entry of `id` out. */
  predicate Drops(s: State, step: Step, id: Id) {
    step == DropCancelled(id) || (step.DropContext? && PcOf(s, step.t).LockDropped? && PcOf(s, step.t).id == id)
  }

  ghost predicate PutsAt(steps: seq<Step>, i: int, id: Id, c: Context) {
    exists s, step :: TakenAt(steps, i, s, step) && Puts(s, step, id, c)
  }

  ghost predicate DropsAt(steps: seq<Step>, i: int, id: Id) {
    exists s, step :: TakenAt(steps, i, s, step) && Drops(s, step, id)
  }

  /** Step `i` put `c`, and no later step put another context or took it out. */
  ghost predicate LastPut(steps: seq<Step>, i: int, id: Id, c: Context) {
    PutsAt(steps, i, id, c) && forall j :: j > i ==> LeavesAlone(steps, j, id)
  }

  /** Step `j` neither puts a context for `id` nor takes one out. */
  ghost predicate LeavesAlone(steps: seq<Step>, j: int, id: Id) {
    !DropsAt(steps, j, id) && forall d :: !PutsAt(steps, j, id, d)
  }

  lemma RegistrationStep(s: State, step: Step, id: Id, c: Context)
    requires Apply(s, step).Some?
    ensures var s' := Apply(s, step).value;
      id in s'.existing && s'.existing[id] == c
      <==> || Puts(s, step, id, c)
           || (id in s.existing && s.existing[id] == c && !Drops(s, step, id) && forall d :: !Puts(s, step, id, d))
  {
    if WithinBlock(step) {
      TakenInside(s, step);
      InsideChanges(s, step.t, PcOf(s, step.t), step);
      if step.Put? && PcOf(s, step.t).op.id == id {
        assert Puts(s, step, id, PcOf(s, step.t).at.context);
      }
    } else {
      OutsideChanges(s, step);
    }
    hide Apply, ApplyInside;
  }

  lemma PutsEarlier(steps: seq<Step>, step: Step, i: int, id: Id)
    requires 0 <= i < |steps|
    ensures forall c :: PutsAt(steps + [step], i, id, c) <==> PutsAt(steps, i, id, c)
    ensures DropsAt(steps + [step], i, id) <==> DropsAt(steps, i, id)
  {
    hide TakenAt, Puts, Drops;
    forall s, a ensures TakenAt(steps + [step], i, s, a) <==> TakenAt(steps, i, s, a) {
      TakenEarlier(steps, step, i, s, a);
    }
  }

  lemma PutsLast(steps: seq<Step>, before: State, step: Step, id: Id)
    requires TakenAt(steps, |steps| - 1, before, step)
    ensures forall c :: PutsAt(steps, |steps| - 1, id, c) <==> Puts(before, step, id, c)
    ensures DropsAt(steps, |steps| - 1, id) <==> Drops(before, step, id)
  {
    hide Puts, Drops, Run;
    var n := |steps| - 1;
    forall s, a | TakenAt(steps, n, s, a) ensures s == before && a == step {}
  }

  lemma SameEarlier(steps: seq<Step>, i: int, id: Id)
    requires steps != [] && 0 <= i < |steps| - 1
    ensures LeavesAlone(steps, i, id) <==> LeavesAlone(steps[..|steps| - 1], i, id)
    ensures forall c :: PutsAt(steps, i, id, c) <==> PutsAt(steps[..|steps| - 1], i, id, c)
  {
    var n := |steps| - 1;
    assert steps == steps[..n] + [steps[n]];
    PutsEarlier(steps[..n], steps[n], i, id);
    hide PutsAt, DropsAt;
  }

  lemma AloneOutside(steps: seq<Step>, i: int, id: Id)
    requires !(0 <= i < |steps|)
    ensures LeavesAlone(steps, i, id) && forall c :: !PutsAt(steps, i, id, c)
  {
    hide Run;
  }

  lemma LastPutSplit(steps: seq<Step>, id: Id, c: Context)
    requires steps != []
    ensures var n := |steps| - 1;
      (exists i :: LastPut(steps, i, id, c))
      <==> PutsAt(steps, n, id, c) || ((exists i :: LastPut(steps[..n], i, id, c)) && LeavesAlone(steps, n, id))
  {
    var n := |steps| - 1;
    hide LastPut;
    if PutsAt(steps, n, id, c) {
      LastIsLastPut(steps, id, c);
    }
    if i :| LastPut(steps, i, id, c) {
      LastPutEarlier(steps, i, id, c);
    }
    if LeavesAlone(steps, n, id) {
      if i :| LastPut(steps[..n], i, id, c) {
        LastPutStill(steps, i, id, c);
      }
    }
  }

  lemma LastIsLastPut(steps: seq<Step>, id: Id, c: Context)
    requires steps != [] && PutsAt(steps, |steps| - 1, id, c)
    ensures LastPut(steps, |steps| - 1, id, c)
  {
    hide PutsAt, LeavesAlone;
    forall j | j > |steps| - 1 ensures LeavesAlone(steps, j, id) {
      AloneOutside(steps, j, id);
    }
  }

  lemma LastPutEarlier(steps: seq<Step>, i: int, id: Id, c: Context)
    requires steps != [] && LastPut(steps, i, id, c)
    ensures i == |steps| - 1 || (LastPut(steps[..|steps| - 1], i, id, c) && LeavesAlone(steps, |steps| - 1, id))
    ensures i == |steps| - 1 ==> PutsAt(steps, |steps| - 1, id, c)
  {
    var n := |steps| - 1;
    hide PutsAt, LeavesAlone;
    if 0 <= i < n {
      SameEarlier(steps, i, id);
      forall j | j > i ensures LeavesAlone(steps[..n], j, id) {
        if j < n {
          SameEarlier(steps, j, id);
        } else {
          AloneOutside(steps[..n], j, id);
        }
      }
    } else if i != n {
      AloneOutside(steps, i, id);
    }
  }

  lemma LastPutStill(steps: seq<Step>, i: int, id: Id, c: Context)
    requires steps != [] && LastPut(steps[..|steps| - 1], i, id, c) && LeavesAlone(steps, |steps| - 1, id)
    ensures LastPut(steps, i, id, c)
  {
    var n := |steps| - 1;
    hide PutsAt, LeavesAlone;
    if 0 <= i < n {
      SameEarlier(steps, i, id);
      forall j | j > i ensures LeavesAlone(steps, j, id) {
        if j < n {
          SameEarlier(steps, j, id);
        } else if j > n {
          AloneOutside(steps, j, id);
        }
      }
    } else {
      AloneOutside(steps[..n], i, id);
    }
  }

  /** In every run the registered context is the one last put, with no removal since. */
  lemma {:induction false} RegisteredIsLastPut(steps: seq<Step>, s: State, id: Id, c: Context)
    requires Run(INIT, steps) == Some(s)
    ensures id in s.existing && s.existing[id] == c <==> exists i :: LastPut(steps, i, id, c)
    decreases |steps|
  {
    hide Apply, Puts, Drops, LastPut;
    if steps == [] {
      NeverPut(id, c);
    } else {
      var n := |steps| - 1;
      var before, step := LastStep(steps, s);
      RegisteredIsLastPut(steps[..n], before, id, c);
      RegistrationStep(before, step, id, c);
      PutsLast(steps, before, step, id);
      assert LeavesAlone(steps, n, id) <==> !Drops(before, step, id) && forall d :: !Puts(before, step, id, d);
      hide PutsAt, DropsAt, LeavesAlone, Run;
      LastPutSplit(steps, id, c);
    }
  }

  lemma NeverPut(id: Id, c: Context)
    ensures forall i :: !LastPut([], i, id, c)
  {
    hide PutsAt;
    forall i ensures !PutsAt([], i, id, c) {
      AloneOutside([], i, id);
    }
  }

  // ----------------------------------------------------------------------- results

  /** The thread is about to leave the block with `c` as its result. */
  predicate Returns(pc: Pc, c: Context) { pc.Section? && pc.at == Leaving(Some(c)) }

  /** Only reading the registry, or putting a new context, decides on a result. */
  lemma ResultsComeFromReadOrPut(s: State, step: Step, t: Thread, c: Context)
    requires Apply(s, step).Some? && !Returns(PcOf(s, t), c) && Returns(PcOf(Apply(s, step).value, t), c)
    ensures var pc := PcOf(s, t);
      && (step == Put(t) || step == Read(t)) && pc.Section? && PcOf(Apply(s, step).value, t).op == pc.op
      && (step == Put(t) ==> pc.at.Created? && pc.at.context == c)
      && (step == Read(t) ==>
            pc.at == Entered && pc.op.GetOrCreate? && pc.op.id in s.existing && s.existing[pc.op.id] == c)
  {
    if WithinBlock(step) {
      TakenInside(s, step);
      InsideMoves(s, step.t, PcOf(s, step.t), step);
      ResultInside(s, PcOf(s, step.t), step, c);
    } else {
      OutsideMoves(s, step);
    }
    hide Apply, ApplyInside;
  }

  lemma ResultInside(s: State, pc: Pc, step: Step, c: Context)
    requires WithinBlock(step) && pc.Section? && ApplyInside(s, step.t, pc, step).Some? && !Returns(pc, c)
    requires Returns(PcOf(ApplyInside(s, step.t, pc, step).value, step.t), c)
    ensures (step.Put? && pc.at.Created? && pc.at.context == c)
         || (step.Read? && pc.at == Entered && pc.op.GetOrCreate?
             && pc.op.id in s.existing && s.existing[pc.op.id] == c)
  {
    hide Bump, Count;
  }

  /** A call returns the context registered for its id at that moment, doomed only if a replacement of it failed. */
  lemma CallReturnsLiveContext(s: State, step: Step, t: Thread, c: Context)
    requires Reachable(s) && Apply(s, step).Some?
    requires !Returns(PcOf(s, t), c) && Returns(PcOf(Apply(s, step).value, t), c)
    ensures var s' := Apply(s, step).value; var id := PcOf(s', t).op.id;
      id in s'.existing && s'.existing[id] == c && (Doomed(s', c) <==> c in s'.orphaned)
  {
    ResultsComeFromReadOrPut(s, step, t, c);
    TakenInside(s, step);
    InsideChanges(s, t, PcOf(s, t), step);
    ReachableInv(s);
    if step == Put(t) {
      assert ThreadInv(s, s.pcs[t]);
    } else {
      GetReadsLiveContext(s, t, PcOf(s, t).op.id);
    }
    InsideKeepsOrphans(s, t, PcOf(s, t), step);
    hide Apply, ApplyInside, Inv, Reachable;
  }

  lemma InsideKeepsOrphans(s: State, t: Thread, pc: Pc, step: Step)
    requires pc.Section? && ApplyInside(s, t, pc, step).Some? && (step.Put? || step.Read?)
    ensures ApplyInside(s, t, pc, step).value.orphaned == s.orphaned
  {
    hide Bump, Count;
  }
}
