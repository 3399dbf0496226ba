/**
 * `ContextFactory` as interleaved steps of any number of threads: get-or-create and replace under a
 * monitor, removal outside of it, and closing on a timer.
 */
module ContextRegistry {
  import opened Options

  type Thread = nat
  type Id = nat
  type Context = nat

  /** Objects threads synchronise on. `computeIfAbsent(id, k -> true)` always yields the one boxed `true`. */
  type Lock = nat
  const BOXED_TRUE: Lock := 1

  datatype Op = GetOrCreate(id: Id) | Replace(id: Id)

  /** Where a thread is inside the synchronized block. */
  datatype Place =
    | Entered
    | HasPrevious(previous: Option<Context>)
    | Creating(previous: Option<Context>)
    | Created(previous: Option<Context>, context: Context)
    | Leaving(result: Option<Context>)

  datatype Pc =
    | Idle
    | Calling(op: Op)
    | Blocked(op: Op, lock: Lock)
    | Section(op: Op, lock: Lock, at: Place)
    | Removing(id: Id, immediately: bool)
    | LockDropped(id: Id, immediately: bool)
    | Detached(context: Context, immediately: bool)

  datatype State = State(
    locks: map<Id, Lock>,
    owner: map<Lock, Thread>,
    existing: map<Id, Context>,
    scheduled: set<Context>,
    closed: set<Context>,
    next: Context,
    pcs: map<Thread, Pc>,
    // history, read by no step
    idOf: map<Context, Id>,
    orphaned: set<Context>,
    created: map<Id, nat>,
    removed: map<Id, nat>,
    replaced: map<Id, nat>)

  const INIT: State := State(map[], map[], map[], {}, {}, 0, map[], map[], {}, map[], map[], map[])

  datatype Step =
    | Call(t: Thread, op: Op)
    | TakeLock(t: Thread)
    | Enter(t: Thread)
    | Read(t: Thread)
    | SchedulePrevious(t: Thread)
    | CreateOk(t: Thread)
    | CreateFail(t: Thread)
    | Put(t: Thread)
    | Exit(t: Thread)
    | CallRemove(t: Thread, id: Id, immediately: bool)
    | DropLock(t: Thread)
    | DropContext(t: Thread)
    | CloseDropped(t: Thread)
    | DropCancelled(id: Id)
    | TimerFires(context: Context)

  function PcOf(s: State, t: Thread): Pc { if t in s.pcs then s.pcs[t] else Idle }

  function Goto(s: State, t: Thread, pc: Pc): State { s.(pcs := s.pcs[t := pc]) }

  function Count(m: map<Id, nat>, id: Id): nat { if id in m then m[id] else 0 }

  function Bump(m: map<Id, nat>, id: Id): map<Id, nat> { m[id := Count(m, id) + 1] }

  /** One atomic action; `None` when it is not enabled. */
  function Apply(s: State, step: Step): Option<State> {
    match step
    case Call(t, op) => if PcOf(s, t).Idle? then Some(Goto(s, t, Calling(op))) else None
    case TakeLock(t) =>
      if PcOf(s, t).Calling? then
        var op := PcOf(s, t).op;
        var locks := if op.id in s.locks then s.locks else s.locks[op.id := BOXED_TRUE];
        Some(Goto(s, t, Blocked(op, locks[op.id])).(locks := locks))
      else None
    case Enter(t) =>
      if PcOf(s, t).Blocked? && PcOf(s, t).lock !in s.owner then
        var pc := PcOf(s, t);
        Some(Goto(s, t, Section(pc.op, pc.lock, Entered)).(owner := s.owner[pc.lock := t]))
      else None
    case CallRemove(t, id, immediately) =>
      if PcOf(s, t).Idle? then Some(Goto(s, t, Removing(id, immediately))) else None
    case DropLock(t) =>
      if PcOf(s, t).Removing? then
        var pc := PcOf(s, t);
        Some(Goto(s, t, LockDropped(pc.id, pc.immediately)).(locks := s.locks - {pc.id}))
      else None
    case DropContext(t) =>
      if PcOf(s, t).LockDropped? then
        var pc := PcOf(s, t);
        if pc.id in s.existing then
          Some(Goto(Drop(s, pc.id), t, Detached(s.existing[pc.id], pc.immediately)))
        else Some(Goto(s, t, Idle))
      else None
    case CloseDropped(t) =>
      if PcOf(s, t).Detached? then
        Some(CloseOrSchedule(s, t, PcOf(s, t)))
      else None
    case DropCancelled(id) => if id in s.existing then Some(Drop(s, id)) else None
    case TimerFires(context) =>
      if context in s.scheduled then Some(s.(closed := s.closed + {context})) else None
    case _ => if PcOf(s, step.t).Section? then ApplyInside(s, step.t, PcOf(s, step.t), step) else None
  }

  function Drop(s: State, id: Id): State
    requires id in s.existing
  {
    s.(existing := s.existing - {id}, removed := Bump(s.removed, id))
  }

  function CloseOrSchedule(s: State, t: Thread, pc: Pc): State
    requires pc.Detached?
  {
    if pc.immediately then Goto(s, t, Idle).(closed := s.closed + {pc.context})
    else Goto(s, t, Idle).(scheduled := s.scheduled + {pc.context})
  }

  /** The actions inside the synchronized block. */
  function ApplyInside(s: State, t: Thread, pc: Pc, step: Step): Option<State>
    requires pc.Section?
  {
    var op, id := pc.op, pc.op.id;
    match (step, pc.at)
    case (Read(_), Entered) =>
      var registered := if id in s.existing then Some(s.existing[id]) else None;
      if op.Replace? then Some(Goto(s, t, pc.(at := HasPrevious(registered))))
      else if registered.Some? then Some(Goto(s, t, pc.(at := Leaving(registered))))
      else Some(Goto(s, t, pc.(at := Creating(None))))
    case (SchedulePrevious(_), HasPrevious(previous)) =>
      Some(Goto(s, t, pc.(at := Creating(previous))).(
        scheduled := if previous.Some? then s.scheduled + {previous.value} else s.scheduled))
    case (CreateOk(_), Creating(previous)) =>
      Some(Goto(s, t, pc.(at := Created(previous, s.next))).(
        next := s.next + 1, idOf := s.idOf[s.next := id], created := Bump(s.created, id),
        replaced := if op.Replace? then Bump(s.replaced, id) else s.replaced))
    case (CreateFail(_), Creating(previous)) =>
      Some(Goto(s, t, pc.(at := Leaving(None))).(
        orphaned := if previous.Some? then s.orphaned + {previous.value} else s.orphaned))
    case (Put(_), Created(_, context)) =>
      Some(Goto(s, t, pc.(at := Leaving(Some(context)))).(existing := s.existing[id := context]))
    case (Exit(_), Leaving(_)) => Some(Goto(s, t, Idle).(owner := s.owner - {pc.lock}))
    case _ => None
  }

  function Run(s: State, steps: seq<Step>): Option<State>
    decreases |steps|
  {
    if steps == [] then Some(s)
    else
      var next := Apply(s, steps[0]);
      if next.None? then None else Run(next.value, steps[1..])
  }

  ghost predicate Reachable(s: State) { exists steps :: Run(INIT, steps) == Some(s) }

  // ------------------------------------------------------------------- the lock

  /** Every lock in sight is the one boxed value, and its owner is the thread inside. */
  ghost predicate LockInv(s: State) {
    && (forall id :: id in s.locks ==> s.locks[id] == BOXED_TRUE)
    && (forall t :: t in s.pcs && (s.pcs[t].Blocked? || s.pcs[t].Section?) ==> s.pcs[t].lock == BOXED_TRUE)
    && (forall t :: t in s.pcs && s.pcs[t].Section? <==> BOXED_TRUE in s.owner && s.owner[BOXED_TRUE] == t)
  }

  /** A thread moves, neither into the block nor out of it. */
  lemma LockKept(s: State, s': State, t: Thread, pc: Pc)
    requires LockInv(s) && s'.pcs == s.pcs[t := pc] && s'.owner == s.owner
    requires forall id :: id in s'.locks ==> s'.locks[id] == BOXED_TRUE
    requires pc.Blocked? || pc.Section? ==> pc.lock == BOXED_TRUE
    requires pc.Section? <==> PcOf(s, t).Section?
    ensures LockInv(s')
  {
  }

  lemma LockEntered(s: State, s': State, t: Thread)
    requires LockInv(s) && PcOf(s, t).Blocked? && PcOf(s, t).lock !in s.owner
    requires s'.pcs == s.pcs[t := Section(PcOf(s, t).op, PcOf(s, t).lock, Entered)]
    requires s'.locks == s.locks && s'.owner == s.owner[PcOf(s, t).lock := t]
    ensures LockInv(s')
  {
  }

  lemma LockLeft(s: State, s': State, t: Thread)
    requires LockInv(s) && PcOf(s, t).Section?
    requires s'.pcs == s.pcs[t := Idle] && s'.locks == s.locks && s'.owner == s.owner - {PcOf(s, t).lock}
    ensures LockInv(s')
  {
    assert s.pcs[t].lock == BOXED_TRUE;
  }

  predicate Inside(s: State, t: Thread) { PcOf(s, t).Section? }

  // -------------------------------------------------------------- the registry

  ghost predicate Doomed(s: State, c: Context) { c in s.scheduled || c in s.closed }

  ghost predicate Registered(s: State, c: Context) { exists id :: id in s.existing && s.existing[id] == c }

  /** A replacement that has scheduled `c` for closing and has not put its successor yet. */
  predicate Superseding(pc: Pc, c: Context) {
    pc.Section? && pc.op.Replace? && (pc.at.Creating? || pc.at.Created?) && pc.at.previous == Some(c)
  }

  ghost predicate Excused(s: State, c: Context) {
    c in s.orphaned || exists t :: t in s.pcs && Superseding(s.pcs[t], c)
  }

  predicate PreviousFits(s: State, id: Id, previous: Option<Context>) {
    previous.Some? ==> previous.value in s.idOf && s.idOf[previous.value] == id
  }

  /** What a thread knows about contexts where it stands. */
  ghost predicate ThreadInv(s: State, pc: Pc) {
    match pc
    case Section(op, _, HasPrevious(previous)) => op.Replace? && PreviousFits(s, op.id, previous)
    case Section(op, _, Creating(previous)) =>
      && (op.Replace? || (previous.None? && op.id !in s.existing))
      && PreviousFits(s, op.id, previous) && (previous.Some? ==> Doomed(s, previous.value))
    case Section(op, _, Created(previous, c)) =>
      && (op.Replace? || (previous.None? && op.id !in s.existing))
      && PreviousFits(s, op.id, previous) && (previous.Some? ==> Doomed(s, previous.value) && previous.value != c)
      && c in s.idOf && s.idOf[c] == op.id && !Doomed(s, c) && !Registered(s, c) && c !in s.orphaned
    case Section(op, _, Leaving(result)) => PreviousFits(s, op.id, result)
    case Detached(c, _) => c in s.idOf && !Registered(s, c)
    case _ => true
  }

  ghost predicate RegistryInv(s: State) {
    && (forall id :: id in s.existing ==> s.existing[id] in s.idOf && s.idOf[s.existing[id]] == id)
    && (forall c :: c in s.idOf ==> c < s.next)
    && (forall c :: c in s.scheduled || c in s.closed || c in s.orphaned ==> c in s.idOf)
    && (forall c :: c in s.orphaned ==> Doomed(s, c))
    && (forall t :: t in s.pcs ==> ThreadInv(s, s.pcs[t]))
    && (forall id :: id in s.existing && Doomed(s, s.existing[id]) ==> Excused(s, s.existing[id]))
    // a context another thread still has to close or put is nobody else's
    && (forall t, u :: t in s.pcs && u in s.pcs && t != u && s.pcs[t].Detached? ==>
          !Pending(s.pcs[u], s.pcs[t].context))
  }

  /** Created and not yet put. */
  predicate Pending(pc: Pc, c: Context) { pc.Section? && pc.at.Created? && pc.at.context == c }

  /** Only one thread is inside. */
  lemma OnlyOneInside(s: State, t: Thread, u: Thread)
    requires LockInv(s) && Inside(s, t) && Inside(s, u)
    ensures t == u
  {
  }

  /** An excuse survives when no superseding thread moves. */
  lemma KeepExcuse(s: State, s': State, c: Context)
    requires Excused(s, c) && s.orphaned <= s'.orphaned
    requires forall t :: t in s.pcs && Superseding(s.pcs[t], c) ==> t in s'.pcs && Superseding(s'.pcs[t], c)
    ensures Excused(s', c)
  {
    if c !in s.orphaned {
      var t :| t in s.pcs && Superseding(s.pcs[t], c);
      assert Superseding(s'.pcs[t], c);
    }
  }

  predicate SameRegistry(s: State, s': State) {
    && s'.existing == s.existing && s'.scheduled == s.scheduled && s'.closed == s.closed
    && s'.next == s.next && s'.idOf == s.idOf && s'.orphaned == s.orphaned
  }

  /** A thread that supersedes nothing moves to a place that claims nothing new. */
  lemma Moved(s: State, s': State, t: Thread, pc: Pc)
    requires RegistryInv(s) && SameRegistry(s, s') && s'.pcs == s.pcs[t := pc]
    requires ThreadInv(s, pc) && !pc.Detached? && !(pc.Section? && pc.at.Created?)
    requires var before := PcOf(s, t); !(before.Section? && (before.at.Creating? || before.at.Created?))
    ensures RegistryInv(s')
  {
    forall c: Context ensures Registered(s', c) <==> Registered(s, c) {}
    forall u | u in s'.pcs ensures ThreadInv(s', s'.pcs[u]) {
      assert ThreadInv(s, s'.pcs[u]);
    }
    forall id | id in s'.existing && Doomed(s', s'.existing[id]) ensures Excused(s', s'.existing[id]) {
      KeepExcuse(s, s', s.existing[id]);
    }
  }

  lemma Fired(s: State, context: Context)
    requires RegistryInv(s) && context in s.scheduled
    ensures RegistryInv(s.(closed := s.closed + {context}))
  {
    var s' := s.(closed := s.closed + {context});
    forall c: Context ensures Registered(s', c) <==> Registered(s, c) {}
    forall id | id in s'.existing && Doomed(s', s'.existing[id]) ensures Excused(s', s'.existing[id]) {
      KeepExcuse(s, s', s.existing[id]);
    }
  }

  lemma Dropped(s: State, id: Id)
    requires RegistryInv(s) && id in s.existing
    ensures RegistryInv(Drop(s, id)) && !Registered(Drop(s, id), s.existing[id])
  {
    var s' := Drop(s, id);
    forall c: Context ensures Registered(s', c) ==> Registered(s, c) {}
    forall i | i in s'.existing && Doomed(s', s'.existing[i]) ensures Excused(s', s'.existing[i]) {
      KeepExcuse(s, s', s.existing[i]);
    }
  }

  /** A context that is registered is nobody's but the registry's. */
  lemma RegisteredIsNotPending(s: State, id: Id, u: Thread)
    requires RegistryInv(s) && id in s.existing && u in s.pcs
    ensures !Pending(s.pcs[u], s.existing[id])
  {
    assert ThreadInv(s, s.pcs[u]) && Registered(s, s.existing[id]);
  }

  /** The thread that took a context out of the registry remembers it. */
  lemma Detaching(s: State, t: Thread, id: Id, immediately: bool)
    requires RegistryInv(s) && id in s.existing && PcOf(s, t).LockDropped?
    ensures RegistryInv(Goto(Drop(s, id), t, Detached(s.existing[id], immediately)))
  {
    var c, mid := s.existing[id], Drop(s, id);
    Dropped(s, id);
    forall u | u in s.pcs ensures !Pending(mid.pcs[u], c) {
      RegisteredIsNotPending(s, id, u);
    }
    assert c in mid.idOf;
    hide Drop;
    Remembered(mid, t, c, immediately);
  }

  lemma Remembered(s: State, t: Thread, c: Context, immediately: bool)
    requires RegistryInv(s) && PcOf(s, t).LockDropped? && c in s.idOf && !Registered(s, c)
    requires forall u :: u in s.pcs ==> !Pending(s.pcs[u], c)
    ensures RegistryInv(Goto(s, t, Detached(c, immediately)))
  {
    var s' := Goto(s, t, Detached(c, immediately));
    assert ThreadInv(s', Detached(c, immediately)) by {
      forall d: Context ensures Registered(s', d) <==> Registered(s, d) {}
    }
    hide ThreadInv;
    forall u | u in s.pcs && u != t ensures ThreadInv(s', s'.pcs[u]) {
      StillKnows(s, s', s.pcs[u]);
    }
    forall i | i in s'.existing && Doomed(s', s'.existing[i]) ensures Excused(s', s'.existing[i]) {
      KeepExcuse(s, s', s.existing[i]);
    }
  }

  lemma Closing(s: State, t: Thread, s': State)
    requires RegistryInv(s) && PcOf(s, t).Detached? && s'.pcs == s.pcs[t := Idle]
    requires s'.existing == s.existing && s'.next == s.next && s'.idOf == s.idOf && s'.orphaned == s.orphaned
    requires forall d: Context :: Doomed(s', d) <==> Doomed(s, d) || d == PcOf(s, t).context
    ensures RegistryInv(s')
  {
    var c := s.pcs[t].context;
    assert ThreadInv(s, s.pcs[t]);
    forall d: Context ensures Registered(s', d) <==> Registered(s, d) {}
    forall u | u in s'.pcs ensures ThreadInv(s', s'.pcs[u]) {
      if u != t {
        assert ThreadInv(s, s.pcs[u]) && !Pending(s.pcs[u], c);
      }
    }
    forall id | id in s'.existing && Doomed(s', s'.existing[id]) ensures Excused(s', s'.existing[id]) {
      assert Registered(s, s.existing[id]);
      KeepExcuse(s, s', s.existing[id]);
    }
    forall d | d in s'.scheduled || d in s'.closed ensures d in s'.idOf {
      assert Doomed(s', d);
    }
  }

  /** The thread inside `t` is the only one with a claim of a replacement. */
  lemma AloneInside(s: State, t: Thread)
    requires LockInv(s) && Inside(s, t)
    ensures forall u :: u in s.pcs && u != t ==> !s.pcs[u].Section?
  {
    forall u | u in s.pcs && u != t ensures !s.pcs[u].Section? {
      if s.pcs[u].Section? {
        OnlyOneInside(s, t, u);
      }
    }
  }

  lemma Scheduling(s: State, t: Thread, pc: Pc, s': State)
    requires LockInv(s) && RegistryInv(s) && PcOf(s, t) == pc && pc.Section? && pc.at.HasPrevious?
    requires s'.pcs == s.pcs[t := pc.(at := Creating(pc.at.previous))]
    requires SameRegistry(s.(scheduled := s'.scheduled), s')
    requires s'.scheduled == if pc.at.previous.Some? then s.scheduled + {pc.at.previous.value} else s.scheduled
    ensures RegistryInv(s')
  {
    AloneInside(s, t);
    assert ThreadInv(s, pc);
    forall d: Context ensures Doomed(s', d) <==> Doomed(s, d) || pc.at.previous == Some(d) {}
    forall d: Context ensures Registered(s', d) <==> Registered(s, d) {}
    forall u | u in s'.pcs ensures ThreadInv(s', s'.pcs[u]) {
      if u != t {
        assert ThreadInv(s, s.pcs[u]);
      }
    }
    forall id | id in s'.existing && Doomed(s', s'.existing[id]) ensures Excused(s', s'.existing[id]) {
      var c := s.existing[id];
      if pc.at.previous == Some(c) {
        assert Superseding(s'.pcs[t], c);
      } else {
        KeepExcuse(s, s', c);
      }
    }
  }

  /** A thread keeps what it knows when contexts are only created. */
  lemma StillKnows(s: State, s': State, pc: Pc)
    requires ThreadInv(s, pc) && s'.existing == s.existing
    requires s'.scheduled == s.scheduled && s'.closed == s.closed && s'.orphaned == s.orphaned
    requires forall c :: c in s.idOf ==> c in s'.idOf && s'.idOf[c] == s.idOf[c]
    ensures ThreadInv(s', pc)
    ensures pc.Detached? ==> pc.context in s.idOf
  {
    forall d: Context ensures Registered(s', d) <==> Registered(s, d) {}
  }

  /** The new context is nobody's but its creator's. */
  lemma KnowsNew(s: State, pc: Pc, s': State)
    requires RegistryInv(s) && pc.Section? && pc.at.Creating? && ThreadInv(s, pc)
    requires s'.idOf == s.idOf[s.next := pc.op.id] && s'.existing == s.existing
    requires s'.scheduled == s.scheduled && s'.closed == s.closed && s'.orphaned == s.orphaned
    ensures ThreadInv(s', pc.(at := Created(pc.at.previous, s.next)))
  {
    assert s.next !in s.idOf;
    forall d: Context ensures Registered(s', d) <==> Registered(s, d) {}
  }

  lemma CreatedOk(s: State, t: Thread, pc: Pc, s': State)
    requires LockInv(s) && RegistryInv(s) && PcOf(s, t) == pc && pc.Section? && pc.at.Creating?
    requires s'.pcs == s.pcs[t := pc.(at := Created(pc.at.previous, s.next))]
    requires s'.next == s.next + 1 && s'.idOf == s.idOf[s.next := pc.op.id]
    requires SameRegistry(s.(next := s'.next, idOf := s'.idOf), s')
    ensures RegistryInv(s')
  {
    AloneInside(s, t);
    hide LockInv, ThreadInv;
    KnowsNew(s, pc, s');
    forall u | u in s.pcs && u != t
      ensures ThreadInv(s', s'.pcs[u]) && (s.pcs[u].Detached? ==> s.pcs[u].context != s.next)
    {
      StillKnows(s, s', s.pcs[u]);
    }
    forall id | id in s'.existing && Doomed(s', s'.existing[id]) ensures Excused(s', s'.existing[id]) {
      KeepExcuse(s, s', s.existing[id]);
    }
  }

  lemma CreatedNot(s: State, t: Thread, pc: Pc, s': State)
    requires LockInv(s) && RegistryInv(s) && PcOf(s, t) == pc && pc.Section? && pc.at.Creating?
    requires s'.pcs == s.pcs[t := pc.(at := Leaving(None))]
    requires s'.orphaned == if pc.at.previous.Some? then s.orphaned + {pc.at.previous.value} else s.orphaned
    requires SameRegistry(s.(orphaned := s'.orphaned), s')
    ensures RegistryInv(s')
  {
    AloneInside(s, t);
    hide LockInv;
    assert ThreadInv(s, pc);
    forall d: Context ensures Doomed(s', d) <==> Doomed(s, d) {}
    assert forall c :: c in s'.orphaned ==> Doomed(s', c) && c in s'.idOf;
    forall u | u in s.pcs && u != t ensures ThreadInv(s', s'.pcs[u]) {
      StillKnowsOutside(s, s', s.pcs[u]);
    }
    assert ThreadInv(s', s'.pcs[t]);
    hide ThreadInv;
    forall id | id in s'.existing && Doomed(s', s'.existing[id]) ensures Excused(s', s'.existing[id]) {
      var c := s.existing[id];
      if pc.at.previous == Some(c) {
        assert c in s'.orphaned;
      } else {
        KeepExcuse(s, s', c);
      }
    }
  }

  lemma StillKnowsOutside(s: State, s': State, pc: Pc)
    requires ThreadInv(s, pc) && !pc.Section? && s'.existing == s.existing && s'.idOf == s.idOf
    ensures ThreadInv(s', pc)
  {
    forall d: Context ensures Registered(s', d) <==> Registered(s, d) {}
  }

  lemma PutIn(s: State, t: Thread, pc: Pc, s': State)
    requires LockInv(s) && RegistryInv(s) && PcOf(s, t) == pc && pc.Section? && pc.at.Created?
    requires s'.pcs == s.pcs[t := pc.(at := Leaving(Some(pc.at.context)))]
    requires s'.existing == s.existing[pc.op.id := pc.at.context]
    requires SameRegistry(s.(existing := s'.existing), s')
    ensures RegistryInv(s')
  {
    AloneInside(s, t);
    assert ThreadInv(s, pc);
    var c := pc.at.context;
    forall d: Context ensures Doomed(s', d) <==> Doomed(s, d) {}
    forall d: Context ensures Registered(s', d) ==> Registered(s, d) || d == c {}
    forall u | u in s'.pcs ensures ThreadInv(s', s'.pcs[u]) {
      if u != t {
        assert ThreadInv(s, s.pcs[u]);
        assert s.pcs[u].Detached? ==> !Pending(pc, s.pcs[u].context);
      }
    }
    forall id | id in s'.existing && Doomed(s', s'.existing[id]) ensures Excused(s', s'.existing[id]) {
      assert !Superseding(pc, s'.existing[id]);
      KeepExcuse(s, s', s'.existing[id]);
    }
  }

  // -------------------------------------------------------------------- counting

  predicate CreatedFor(pc: Pc, id: Id) { pc.Section? && pc.at.Created? && pc.op == GetOrCreate(id) }

  /** One when the thread inside has created a first context for `id` that it has not put yet. */
  ghost function InFlight(s: State, id: Id): nat {
    if exists t :: t in s.pcs && CreatedFor(s.pcs[t], id) then 1 else 0
  }

  ghost predicate CountInv(s: State) {
    forall id :: Count(s.created, id)
              <= Count(s.removed, id) + Count(s.replaced, id) + InFlight(s, id) + (if id in s.existing then 1 else 0)
  }

  ghost predicate Inv(s: State) { LockInv(s) && RegistryInv(s) && CountInv(s) }

  lemma InFlightSame(s: State, s': State, id: Id)
    requires forall t :: (t in s.pcs && CreatedFor(s.pcs[t], id)) <==> (t in s'.pcs && CreatedFor(s'.pcs[t], id))
    ensures InFlight(s, id) == InFlight(s', id)
  {
    if t :| t in s.pcs && CreatedFor(s.pcs[t], id) {
      assert t in s'.pcs && CreatedFor(s'.pcs[t], id);
    }
  }

  /** No thread passes a creation or a put. */
  lemma CountKept(s: State, s': State, t: Thread, pc: Pc)
    requires CountInv(s) && s'.pcs == s.pcs[t := pc]
    requires s'.existing == s.existing && s'.created == s.created && s'.removed == s.removed
        && s'.replaced == s.replaced
    requires !(pc.Section? && pc.at.Created?)
    requires var before := PcOf(s, t); !(before.Section? && before.at.Created?)
    ensures CountInv(s')
  {
    forall id
      ensures Count(s'.created, id)
           <= Count(s'.removed, id) + Count(s'.replaced, id) + InFlight(s', id) + (if id in s'.existing then 1 else 0)
    {
      InFlightSame(s, s', id);
    }
  }

  lemma CountDropped(s: State, id: Id)
    requires CountInv(s) && id in s.existing
    ensures CountInv(Drop(s, id))
  {
    var s' := Drop(s, id);
    forall i
      ensures Count(s'.created, i)
           <= Count(s'.removed, i) + Count(s'.replaced, i) + InFlight(s', i) + (if i in s'.existing then 1 else 0)
    {
      InFlightSame(s, s', i);
    }
  }

  lemma CountCreated(s: State, t: Thread, pc: Pc, s': State)
    requires LockInv(s) && CountInv(s) && PcOf(s, t) == pc && pc.Section? && pc.at.Creating?
    requires s'.pcs == s.pcs[t := pc.(at := Created(pc.at.previous, s.next))]
    requires s'.existing == s.existing && s'.removed == s.removed && s'.created == Bump(s.created, pc.op.id)
    requires s'.replaced == if pc.op.Replace? then Bump(s.replaced, pc.op.id) else s.replaced
    ensures CountInv(s')
  {
    AloneInside(s, t);
    forall id
      ensures Count(s'.created, id)
           <= Count(s'.removed, id) + Count(s'.replaced, id) + InFlight(s', id) + (if id in s'.existing then 1 else 0)
    {
      if pc.op == GetOrCreate(id) {
        assert CreatedFor(s'.pcs[t], id);
      } else {
        InFlightSame(s, s', id);
      }
    }
  }

  lemma CountPut(s: State, t: Thread, pc: Pc, s': State)
    requires RegistryInv(s) && CountInv(s) && PcOf(s, t) == pc && pc.Section? && pc.at.Created?
    requires s'.pcs == s.pcs[t := pc.(at := Leaving(Some(pc.at.context)))]
    requires s'.existing == s.existing[pc.op.id := pc.at.context]
    requires s'.created == s.created && s'.removed == s.removed && s'.replaced == s.replaced
    ensures CountInv(s')
  {
    assert ThreadInv(s, pc);
    forall id
      ensures Count(s'.created, id)
           <= Count(s'.removed, id) + Count(s'.replaced, id) + InFlight(s', id) + (if id in s'.existing then 1 else 0)
    {
      if pc.op != GetOrCreate(id) {
        InFlightSame(s, s', id);
      }
    }
  }

  // --------------------------------------------------------------------- results

  lemma InvInit()
    ensures Inv(INIT)
  {
  }

  /** A thread's own steps, one of its places to the next. */
  lemma PlainMove(s: State, s': State, t: Thread, pc: Pc)
    requires Inv(s) && SameRegistry(s, s') && s'.pcs == s.pcs[t := pc] && LockInv(s')
    requires ThreadInv(s, pc) && !pc.Detached? && !(pc.Section? && pc.at.Created?)
    requires var before := PcOf(s, t); !(before.Section? && (before.at.Creating? || before.at.Created?))
    requires s'.created == s.created && s'.removed == s.removed && s'.replaced == s.replaced
    ensures Inv(s')
  {
    hide LockInv, RegistryInv, CountInv;
    Moved(s, s', t, pc);
    CountKept(s, s', t, pc);
  }

  lemma InvOutside(s: State, step: Step)
    requires Inv(s) && Apply(s, step).Some?
    requires step.Call? || step.TakeLock? || step.Enter? || step.CallRemove? || step.DropLock?
    ensures Inv(Apply(s, step).value)
  {
    hide RegistryInv, CountInv;
    var s', t := Apply(s, step).value, step.t;
    if step.Enter? {
      LockEntered(s, s', t);
    } else {
      LockKept(s, s', t, s'.pcs[t]);
    }
    PlainMove(s, s', t, s'.pcs[t]);
  }

  lemma InvDropContext(s: State, t: Thread, s': State)
    requires Inv(s) && Apply(s, DropContext(t)) == Some(s')
    ensures Inv(s')
  {
    hide Inv;
    var id := s.pcs[t].id;
    assert PcOf(s, t) == s.pcs[t] && s.pcs[t].LockDropped?;
    if id in s.existing {
      hide Apply;
      InvDetach(s, t, id, s.pcs[t].immediately);
    } else {
      hide Apply;
      InvNothingThere(s, t);
    }
  }

  lemma InvDetach(s: State, t: Thread, id: Id, immediately: bool)
    requires Inv(s) && PcOf(s, t).LockDropped? && id in s.existing
    ensures Inv(Goto(Drop(s, id), t, Detached(s.existing[id], immediately)))
  {
    hide RegistryInv, CountInv, ThreadInv, Doomed, Excused;
    var pc := Detached(s.existing[id], immediately);
    var s' := Goto(Drop(s, id), t, pc);
    LockKept(s, s', t, pc);
    hide LockInv;
    Detaching(s, t, id, immediately);
    CountDropped(s, id);
    CountKept(Drop(s, id), s', t, pc);
  }

  lemma InvNothingThere(s: State, t: Thread)
    requires Inv(s) && PcOf(s, t).LockDropped?
    ensures Inv(Goto(s, t, Idle))
  {
    hide RegistryInv, CountInv, ThreadInv, Doomed, Excused;
    var s' := Goto(s, t, Idle);
    LockKept(s, s', t, Idle);
    hide LockInv;
    NoClaim(s, Idle);
    PlainMove(s, s', t, Idle);
  }

  lemma InvCloseDropped(s: State, t: Thread, s': State)
    requires Inv(s) && Apply(s, CloseDropped(t)) == Some(s')
    ensures Inv(s')
  {
    hide RegistryInv, CountInv, ThreadInv, Doomed, Excused;
    assert PcOf(s, t).Detached? && s' == CloseOrSchedule(s, t, PcOf(s, t));
    hide Apply;
    CloseOrScheduleDooms(s, t, PcOf(s, t));
    hide CloseOrSchedule;
    LockKept(s, s', t, Idle);
    hide LockInv;
    Closing(s, t, s');
    CountKept(s, s', t, Idle);
  }

  lemma CloseOrScheduleDooms(s: State, t: Thread, pc: Pc)
    requires pc.Detached?
    ensures var s' := CloseOrSchedule(s, t, pc);
      && s'.pcs == s.pcs[t := Idle] && s'.existing == s.existing && s'.next == s.next && s'.idOf == s.idOf
      && s'.orphaned == s.orphaned && s'.locks == s.locks && s'.owner == s.owner
      && s'.created == s.created && s'.removed == s.removed && s'.replaced == s.replaced
      && forall d: Context :: Doomed(s', d) <==> Doomed(s, d) || d == pc.context
  {
    if pc.immediately {
    } else {
    }
  }

  /** Outside the block and with nothing detached a thread claims nothing. */
  lemma NoClaim(s: State, pc: Pc)
    requires !pc.Section? && !pc.Detached?
    ensures ThreadInv(s, pc)
  {
  }

  lemma InvDropCancelled(s: State, id: Id)
    requires Inv(s) && id in s.existing
    ensures Inv(Drop(s, id))
  {
    hide RegistryInv, CountInv, LockInv;
    Dropped(s, id);
    CountDropped(s, id);
    LockSame(s, Drop(s, id));
  }

  lemma InvTimer(s: State, context: Context)
    requires Inv(s) && context in s.scheduled
    ensures Inv(s.(closed := s.closed + {context}))
  {
    hide RegistryInv, CountInv, LockInv;
    var s' := s.(closed := s.closed + {context});
    Fired(s, context);
    LockSame(s, s');
    CountSame(s, s');
  }

  lemma LockSame(s: State, s': State)
    requires LockInv(s) && s'.locks == s.locks && s'.owner == s.owner && s'.pcs == s.pcs
    ensures LockInv(s')
  {
  }

  lemma CountSame(s: State, s': State)
    requires CountInv(s) && s'.pcs == s.pcs && s'.existing == s.existing
    requires s'.created == s.created && s'.removed == s.removed && s'.replaced == s.replaced
    ensures CountInv(s')
  {
    forall id
      ensures Count(s'.created, id)
           <= Count(s'.removed, id) + Count(s'.replaced, id) + InFlight(s', id) + (if id in s'.existing then 1 else 0)
    {
      InFlightSame(s, s', id);
    }
  }

  lemma InvRead(s: State, t: Thread, s': State)
    requires Inv(s) && Apply(s, Read(t)) == Some(s')
    ensures Inv(s')
  {
    hide Inv;
    var pc := s.pcs[t];
    var registered := if pc.op.id in s.existing then Some(s.existing[pc.op.id]) else None;
    var at := AfterRead(pc.op, registered);
    assert PcOf(s, t) == pc && pc.Section? && pc.at == Entered && s' == Goto(s, t, pc.(at := at));
    hide Apply, ApplyInside;
    InvHasRead(s, t, pc, at);
  }

  /** Where reading the registry leads. */
  function AfterRead(op: Op, registered: Option<Context>): Place {
    if op.Replace? then HasPrevious(registered) else if registered.Some? then Leaving(registered) else Creating(None)
  }

  lemma InvHasRead(s: State, t: Thread, pc: Pc, at: Place)
    requires Inv(s) && PcOf(s, t) == pc && pc.Section? && pc.at == Entered
    requires at == AfterRead(pc.op, if pc.op.id in s.existing then Some(s.existing[pc.op.id]) else None)
    ensures Inv(Goto(s, t, pc.(at := at)))
  {
    hide RegistryInv, CountInv, ThreadInv, Doomed, Excused;
    var s' := Goto(s, t, pc.(at := at));
    LockKept(s, s', t, s'.pcs[t]);
    hide LockInv;
    ReadFits(s, pc);
    PlainMove(s, s', t, s'.pcs[t]);
  }

  lemma InvSchedulePrevious(s: State, t: Thread, s': State)
    requires Inv(s) && Apply(s, SchedulePrevious(t)) == Some(s')
    ensures Inv(s')
  {
    hide RegistryInv, CountInv;
    var pc := s.pcs[t];
    LockKept(s, s', t, s'.pcs[t]);
    hide LockInv;
    Scheduling(s, t, pc, s');
    CountKept(s, s', t, s'.pcs[t]);
  }

  lemma InvCreateOk(s: State, t: Thread, s': State)
    requires Inv(s) && Apply(s, CreateOk(t)) == Some(s')
    ensures Inv(s')
  {
    hide RegistryInv, CountInv;
    var pc := s.pcs[t];
    LockKept(s, s', t, s'.pcs[t]);
    hide LockInv;
    CreatedOk(s, t, pc, s');
    CountCreated(s, t, pc, s');
  }

  lemma InvCreateFail(s: State, t: Thread, s': State)
    requires Inv(s) && Apply(s, CreateFail(t)) == Some(s')
    ensures Inv(s')
  {
    hide RegistryInv, CountInv;
    var pc := s.pcs[t];
    LockKept(s, s', t, s'.pcs[t]);
    hide LockInv;
    CreatedNot(s, t, pc, s');
    CountKept(s, s', t, s'.pcs[t]);
  }

  lemma InvPut(s: State, t: Thread, s': State)
    requires Inv(s) && Apply(s, Put(t)) == Some(s')
    ensures Inv(s')
  {
    hide RegistryInv, CountInv;
    var pc := s.pcs[t];
    LockKept(s, s', t, s'.pcs[t]);
    hide LockInv;
    PutIn(s, t, pc, s');
    CountPut(s, t, pc, s');
  }

  lemma InvExit(s: State, t: Thread, s': State)
    requires Inv(s) && Apply(s, Exit(t)) == Some(s')
    ensures Inv(s')
  {
    hide RegistryInv, CountInv;
    var pc := s.pcs[t];
    LockLeft(s, s', t);
    hide LockInv;
    PlainMove(s, s', t, Idle);
  }

  /** Whatever the block reads fits the id, and what it goes on to claim holds. */
  lemma ReadFits(s: State, pc: Pc)
    requires RegistryInv(s) && pc.Section?
    ensures ThreadInv(s, pc.(at := Leaving(None)))
    ensures pc.op.id in s.existing ==> ThreadInv(s, pc.(at := Leaving(Some(s.existing[pc.op.id]))))
    ensures pc.op.Replace? && pc.op.id in s.existing
        ==> ThreadInv(s, pc.(at := HasPrevious(Some(s.existing[pc.op.id]))))
    ensures pc.op.Replace? ==> ThreadInv(s, pc.(at := HasPrevious(None)))
    ensures pc.op.id !in s.existing ==> ThreadInv(s, pc.(at := Creating(None)))
  {
  }

  lemma InvStep(s: State, step: Step)
    requires Inv(s) && Apply(s, step).Some?
    ensures Inv(Apply(s, step).value)
  {
    hide Inv;
    var s' := Apply(s, step).value;
    match step {
      case DropCancelled(id) => InvDropCancelled(s, id);
      case TimerFires(context) => InvTimer(s, context);
      case Read(t) => hide Apply; InvRead(s, t, s');
      case SchedulePrevious(t) => hide Apply; InvSchedulePrevious(s, t, s');
      case CreateOk(t) => hide Apply; InvCreateOk(s, t, s');
      case CreateFail(t) => hide Apply; InvCreateFail(s, t, s');
      case Put(t) => hide Apply; InvPut(s, t, s');
      case Exit(t) => hide Apply; InvExit(s, t, s');
      case DropContext(t) => hide Apply; InvDropContext(s, t, s');
      case CloseDropped(t) => hide Apply; InvCloseDropped(s, t, s');
      case _ => hide Apply; InvOutside(s, step);
    }
  }

  lemma {:induction false} InvRun(s: State, steps: seq<Step>)
    requires Inv(s) && Run(s, steps).Some?
    ensures Inv(Run(s, steps).value)
    decreases |steps|
  {
    hide Inv, Apply;
    if steps != [] {
      InvStep(s, steps[0]);
      InvRun(Apply(s, steps[0]).value, steps[1..]);
    }
  }

  lemma ReachableInv(s: State)
    requires Reachable(s)
    ensures Inv(s)
  {
    hide Inv, Run;
    var steps :| Run(INIT, steps) == Some(s);
    InvInit();
    InvRun(INIT, steps);
  }

  /** In every interleaving at most one thread is in the critical section, whatever the ids. */
  lemma MutualExclusion(s: State, t: Thread, u: Thread)
    requires Reachable(s) && Inside(s, t) && Inside(s, u)
    ensures t == u
  {
    hide Reachable;
    ReachableInv(s);
    OnlyOneInside(s, t, u);
  }

  /**
   * A registered context that is closed or due to be closed is either being replaced right now, by the one
   * thread inside, or was left behind by a replacement whose creation failed; and the latter are doomed.
   */
  lemma DoomedOnlyWhileReplaced(s: State, id: Id)
    requires Reachable(s) && id in s.existing
    ensures Doomed(s, s.existing[id])
       <==> s.existing[id] in s.orphaned || exists t :: t in s.pcs && Superseding(s.pcs[t], s.existing[id])
  {
    hide Reachable;
    ReachableInv(s);
    if t :| t in s.pcs && Superseding(s.pcs[t], s.existing[id]) {
      assert ThreadInv(s, s.pcs[t]);
    }
  }

  /** A get-or-create about to read the registry finds no doomed context, unless a replacement failed. */
  lemma GetReadsLiveContext(s: State, t: Thread, id: Id)
    requires Reachable(s) && PcOf(s, t).Section? && PcOf(s, t).op == GetOrCreate(id) && PcOf(s, t).at == Entered
    requires id in s.existing
    ensures Doomed(s, s.existing[id]) <==> s.existing[id] in s.orphaned
  {
    hide Reachable;
    ReachableInv(s);
    DoomedOnlyWhileReplaced(s, id);
    if u :| u in s.pcs && Superseding(s.pcs[u], s.existing[id]) {
      OnlyOneInside(s, t, u);
    }
  }

  /** Contexts are created at most once per id, plus once for every removal and every replacement. */
  lemma CreationsBounded(s: State, id: Id)
    requires Reachable(s)
    ensures Count(s.created, id) <= 1 + Count(s.removed, id) + Count(s.replaced, id)
  {
    hide Reachable;
    ReachableInv(s);
    if t :| t in s.pcs && CreatedFor(s.pcs[t], id) {
      assert ThreadInv(s, s.pcs[t]);
    }
  }

  /** Whenever nobody is inside, an idle thread can get to the start of the block. */
  lemma CanEnter(s: State, t: Thread, op: Op) returns (s': State)
    requires Reachable(s) && PcOf(s, t).Idle? && BOXED_TRUE !in s.owner && Inv(s)
    ensures Reachable(s') && s'.pcs == s.pcs[t := Section(op, BOXED_TRUE, Entered)]
    ensures s'.existing == s.existing && s'.scheduled == s.scheduled
  {
    hide Inv, Reachable;
    var calling := Next(s, Call(t, op));
    var blocked := Next(calling, TakeLock(t));
    assert blocked.pcs[t].lock == BOXED_TRUE by { ReachableInv(blocked); InvLocks(blocked, t); }
    assert blocked.pcs == s.pcs[t := Blocked(op, BOXED_TRUE)];
    s' := Next(blocked, Enter(t));
    assert s'.pcs == s.pcs[t := Section(op, BOXED_TRUE, Entered)];
  }

  lemma InvLocks(s: State, t: Thread)
    requires Inv(s) && t in s.pcs && s.pcs[t].Blocked?
    ensures s.pcs[t].lock == BOXED_TRUE
  {
  }

  lemma CreatesFirst(s: State, t: Thread, id: Id) returns (s': State)
    requires Reachable(s) && PcOf(s, t) == Section(GetOrCreate(id), BOXED_TRUE, Entered) && id !in s.existing
    ensures Reachable(s') && s'.pcs == s.pcs[t := Idle] && BOXED_TRUE !in s'.owner && id in s'.existing
  {
    hide Reachable;
    s' := Next(s, Read(t));
    assert s'.pcs == s.pcs[t := Section(GetOrCreate(id), BOXED_TRUE, Creating(None))] && s'.owner == s.owner;
    hide Apply;
    s' := FinishesCreation(s', t, GetOrCreate(id));
  }

  lemma FinishesCreation(s: State, t: Thread, op: Op) returns (s': State)
    requires Reachable(s) && PcOf(s, t) == Section(op, BOXED_TRUE, Creating(None))
    ensures Reachable(s') && s'.pcs == s.pcs[t := Idle] && BOXED_TRUE !in s'.owner && op.id in s'.existing
  {
    hide Reachable;
    s' := Next(s, CreateOk(t));
    assert s'.pcs == s.pcs[t := Section(op, BOXED_TRUE, Created(None, s.next))] && s'.owner == s.owner;
    hide Apply;
    s' := PutsAndLeaves(s', t, op, s.next);
  }

  lemma PutsAndLeaves(s: State, t: Thread, op: Op, c: Context) returns (s': State)
    requires Reachable(s) && PcOf(s, t) == Section(op, BOXED_TRUE, Created(None, c))
    ensures Reachable(s') && s'.pcs == s.pcs[t := Idle] && BOXED_TRUE !in s'.owner && op.id in s'.existing
  {
    hide Reachable;
    s' := Next(s, Put(t));
    assert s'.pcs == s.pcs[t := Section(op, BOXED_TRUE, Leaving(Some(c)))];
    assert s'.owner == s.owner && op.id in s'.existing;
    s' := Next(s', Exit(t));
  }

  lemma FailsToReplace(s: State, t: Thread, id: Id) returns (s': State)
    requires Reachable(s) && PcOf(s, t) == Section(Replace(id), BOXED_TRUE, Entered) && id in s.existing
    ensures Reachable(s') && s'.pcs == s.pcs[t := Idle] && BOXED_TRUE !in s'.owner
    ensures s'.existing == s.existing && s.existing[id] in s'.scheduled
  {
    hide Reachable;
    var c := s.existing[id];
    s' := Next(s, Read(t));
    assert s'.pcs == s.pcs[t := Section(Replace(id), BOXED_TRUE, HasPrevious(Some(c)))];
    assert s'.owner == s.owner && s'.existing == s.existing;
    s' := Next(s', SchedulePrevious(t));
    assert s'.pcs == s.pcs[t := Section(Replace(id), BOXED_TRUE, Creating(Some(c)))];
    assert s'.owner == s.owner && s'.existing == s.existing && c in s'.scheduled;
    hide Apply;
    s' := FailsToCreate(s', t, Replace(id), Some(c));
  }

  lemma FailsToCreate(s: State, t: Thread, op: Op, previous: Option<Context>) returns (s': State)
    requires Reachable(s) && PcOf(s, t) == Section(op, BOXED_TRUE, Creating(previous))
    ensures Reachable(s') && s'.pcs == s.pcs[t := Idle] && BOXED_TRUE !in s'.owner
    ensures s'.existing == s.existing && s'.scheduled == s.scheduled
  {
    hide Reachable;
    s' := Next(s, CreateFail(t));
    assert s'.pcs == s.pcs[t := Section(op, BOXED_TRUE, Leaving(None))] && s'.owner == s.owner;
    s' := Next(s', Exit(t));
  }

  /** The failure matters: create, fail to replace, and the next get reads a context due to be closed. */
  lemma FailedReplacementIsServed(id: Id) returns (s: State)
    ensures Reachable(s) && PcOf(s, 0) == Section(GetOrCreate(id), BOXED_TRUE, Entered)
    ensures id in s.existing && s.existing[id] in s.scheduled
  {
    assert Run(INIT, []) == Some(INIT);
    assert Reachable(INIT) && INIT.pcs == map[] && BOXED_TRUE !in INIT.owner && id !in INIT.existing;
    hide Reachable, Run, Inv, INIT, Apply;
    ReachableInv(INIT);
    s := CanEnter(INIT, 0, GetOrCreate(id));
    s := CreatesFirst(s, 0, id);
    ReachableInv(s);
    s := CanEnter(s, 1, Replace(id));
    s := FailsToReplace(s, 1, id);
    ReachableInv(s);
    s := CanEnter(s, 0, GetOrCreate(id));
  }

  lemma Next(s: State, step: Step) returns (s': State)
    requires Reachable(s) && Apply(s, step).Some?
    ensures Reachable(s') && Apply(s, step) == Some(s')
  {
    hide Apply;
    s' := Apply(s, step).value;
    var steps :| Run(INIT, steps) == Some(s);
    RunAppend(INIT, steps, [step]);
    assert Run(s, [step]) == Run(s', [step][1..]);
    assert Run(INIT, steps + [step]) == Some(s');
  }

  lemma {:induction false} RunAppend(s: State, a: seq<Step>, b: seq<Step>)
    requires Run(s, a).Some?
    ensures Run(s, a + b) == Run(Run(s, a).value, b)
    decreases |a|
  {
    hide Apply;
    if a == [] {
      assert a + b == b;
    } else {
      assert (a + b)[1..] == a[1..] + b;
      RunAppend(Apply(s, a[0]).value, a[1..], b);
    }
  }
}
