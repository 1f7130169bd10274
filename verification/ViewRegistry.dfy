/** The life of namespace views: queries start them and retire the ones whose stream was
    misconfigured, their goroutines fail and finish, and Close ends them all. Every critical
    section and every wake-up is its own step, so a run is any interleaving. */
module ViewRegistry {
  import opened Storage
  import opened OrderedView

  /** What the registry can tell of one view. */
  datatype Lifecycle = Lifecycle(namespace: string, fatal: Option<Fault>, cancelled: bool, done: bool)

  /** Views are named by the order in which they were started. `taken` is what Close took over. */
  datatype Shared = Shared(started: seq<Lifecycle>, current: map<string, nat>, closed: bool, taken: set<nat>)

  const EMPTY := Shared([], map[], false, {})

  datatype Acquisition = Refused | Got(id: nat, created: bool)

  function Acquire(s: Shared, ns: string): Acquisition {
    if s.closed then Refused
    else if ns in s.current then Got(s.current[ns], false)
    else Got(|s.started|, true)
  }

  function AfterAcquire(s: Shared, ns: string): Shared {
    if s.closed || ns in s.current then s
    else s.(started := s.started + [Lifecycle(ns, None, false, false)], current := s.current[ns := |s.started|])
  }

  predicate IsCurrent(s: Shared, ns: string, id: nat) { ns in s.current && s.current[ns] == id }

  function AfterRetire(s: Shared, ns: string, id: nat): Shared {
    if IsCurrent(s, ns, id) then s.(current := s.current - {ns}) else s
  }

  function AfterClose(s: Shared): Shared {
    if s.closed then s else s.(closed := true, taken := s.current.Values, current := map[])
  }

  function FatalOf(s: Shared, id: nat): Option<Fault> { if id < |s.started| then s.started[id].fatal else None }

  predicate Finished(s: Shared, id: nat) { id < |s.started| && s.started[id].done }

  predicate WasCancelled(s: Shared, id: nat) { id < |s.started| && s.started[id].cancelled }

  function WithView(s: Shared, id: nat, v: Lifecycle): Shared {
    if id < |s.started| then s.(started := s.started[id := v]) else s
  }

  // ---- a query -------------------------------------------------------------

  datatype Answer = Ready | StoreClosed | GaveUp | Failed(id: nat, why: Fault)

  datatype Place =
    | Entering
    | Checking
    | Evicting(why: Fault, inherited: bool)
    | Reacquiring
    | Waiting
    | Answered(answer: Answer)

  /** Besides its own locals a query remembers which views it started and which it retired, and the
      view it found already broken by a bad configuration when it came in. */
  datatype Query = Query(
    ns: string, at: Place, view: nat, created: bool, restarted: bool,
    begun: seq<nat>, retired: seq<nat>, broken: Option<nat>)

  function NewQuery(ns: string): Query { Query(ns, Entering, 0, false, false, [], [], None) }

  /** What a query meets when it moves: its context ends, the view has reached the tip, or neither. */
  datatype Luck = Onward | ContextEnds | CaughtUp

  function Proceed(s: Shared, q: Query, luck: Luck): (Shared, Query) {
    match q.at
    case Entering => Enter(s, q)
    case Reacquiring => Enter(s, q)
    case Checking =>
      (s, match FatalOf(s, q.view)
          case None => q.(at := Waiting)
          case Some(why) =>
            if !q.created && !q.restarted && why == BadConfig then q.(at := Evicting(why, true))
            else q.(at := Answered(Failed(q.view, why))))
    case Waiting =>
      (s, if luck == ContextEnds then q.(at := Answered(GaveUp)) else
          match FatalOf(s, q.view)
          case Some(why) => q.(at := if why == BadConfig then Evicting(why, false) else Answered(Failed(q.view, why)))
          case None => if luck == CaughtUp then q.(at := Answered(Ready))
                       else if Finished(s, q.view) then q.(at := Answered(StoreClosed)) else q)
    case Evicting(why, inherited) =>
      if luck == ContextEnds then (s, q.(at := Answered(GaveUp)))
      else if !Finished(s, q.view) then (s, q)
      else
        var retired := if IsCurrent(s, q.ns, q.view) then q.retired + [q.view] else q.retired;
        (AfterRetire(s, q.ns, q.view),
         if inherited then q.(at := Reacquiring, restarted := true, retired := retired)
         else q.(at := Answered(Failed(q.view, why)), retired := retired))
    case Answered(_) => (s, q)
  }

  function Enter(s: Shared, q: Query): (Shared, Query) {
    match Acquire(s, q.ns)
    case Refused => (s, q.(at := Answered(StoreClosed)))
    case Got(id, created) =>
      (AfterAcquire(s, q.ns),
       q.(at := Checking, view := id, created := created,
          begun := if created then q.begun + [id] else q.begun,
          broken := if q.at.Entering? && !created && FatalOf(s, id) == Some(BadConfig) then Some(id) else q.broken))
  }

  // ---- the whole -----------------------------------------------------------

  /** The Close that closed the store: it cancels every view it took, then waits for each. */
  datatype Closer = Idle | Stopping(uncancelled: set<nat>, pending: set<nat>, late: bool) | Returned(ok: bool)

  datatype System = System(shared: Shared, queries: map<nat, Query>, closer: Closer)

  const INITIAL := System(EMPTY, map[], Idle)

  datatype Step =
    | Ask(q: nat, ns: string)
    | Move(q: nat, luck: Luck)
    | Fail(id: nat, why: Fault)
    | CancelFailed(id: nat)
    | Finish(id: nat)
    | BeginClose
    | CloseCancels(id: nat)
    | CloseWaits(id: nat, expired: bool)
    | CloseReturns

  /** One step; a step that cannot be taken changes nothing. A Close that finds the store closed
      returns nil at once, which is such a step. */
  function Next(sys: System, step: Step): System {
    var s := sys.shared;
    match step
    case Ask(q, ns) => if q in sys.queries then sys else sys.(queries := sys.queries[q := NewQuery(ns)])
    case Move(q, luck) =>
      if q !in sys.queries then sys
      else var (next, moved) := Proceed(s, sys.queries[q], luck);
           sys.(shared := next, queries := sys.queries[q := moved])
    case Fail(id, why) =>
      if id < |s.started| && !s.started[id].done && s.started[id].fatal.None?
      then sys.(shared := WithView(s, id, s.started[id].(fatal := Some(why)))) else sys
    case CancelFailed(id) =>
      if id < |s.started| && s.started[id].fatal.Some?
      then sys.(shared := WithView(s, id, s.started[id].(cancelled := true))) else sys
    case Finish(id) =>
      if id < |s.started| && s.started[id].cancelled
      then sys.(shared := WithView(s, id, s.started[id].(done := true))) else sys
    case BeginClose =>
      if s.closed then sys
      else sys.(shared := AfterClose(s), closer := Stopping(s.current.Values, s.current.Values, false))
    case CloseCancels(id) =>
      if sys.closer.Stopping? && id in sys.closer.uncancelled && id < |s.started|
      then sys.(shared := WithView(s, id, s.started[id].(cancelled := true)),
                closer := sys.closer.(uncancelled := sys.closer.uncancelled - {id}))
      else sys
    case CloseWaits(id, expired) =>
      if sys.closer.Stopping? && sys.closer.uncancelled == {} && id in sys.closer.pending && (expired || Finished(s, id))
      then sys.(closer := sys.closer.(pending := sys.closer.pending - {id}, late := sys.closer.late || expired))
      else sys
    case CloseReturns =>
      if sys.closer.Stopping? && sys.closer.uncancelled == {} == sys.closer.pending
      then sys.(closer := Returned(!sys.closer.late)) else sys
  }

  function Run(sys: System, steps: seq<Step>): System
    decreases |steps|
  {
    if steps == [] then sys else Run(Next(sys, steps[0]), steps[1..])
  }

  // ---- the invariant -------------------------------------------------------

  /** A view that has not finished is registered under its namespace, or Close has it. */
  ghost predicate Tracked(s: Shared, id: nat)
    requires id < |s.started|
  {
    s.started[id].done || IsCurrent(s, s.started[id].namespace, id) || id in s.taken
  }

  ghost predicate SharedOk(s: Shared) {
    && (forall ns :: ns in s.current ==> s.current[ns] < |s.started| && s.started[s.current[ns]].namespace == ns)
    && (forall id :: id in s.taken ==> id < |s.started|)
    && (forall id, other :: id in s.taken && other in s.taken && s.started[id].namespace == s.started[other].namespace ==> id == other)
    && (if s.closed then s.current == map[] else s.taken == {})
    && (forall id :: 0 <= id < |s.started| ==> Tracked(s, id))
    && (forall id :: 0 <= id < |s.started| && s.started[id].done ==> s.started[id].cancelled)
  }

  ghost predicate CloserOk(s: Shared, c: Closer) {
    match c
    case Idle => !s.closed
    case Stopping(uncancelled, pending, late) =>
      && s.closed
      && (forall id :: id in s.taken ==> id in uncancelled || WasCancelled(s, id))
      && (forall id :: id in s.taken ==> late || id in pending || Finished(s, id))
    case Returned(ok) =>
      && s.closed
      && (forall id :: id in s.taken ==> WasCancelled(s, id))
      && (ok ==> forall id :: id in s.taken ==> Finished(s, id))
  }

  /** A view that has been dropped and can no longer be handed out. */
  ghost predicate Gone(s: Shared, id: nat) { Finished(s, id) && id !in s.current.Values }

  ghost predicate QueryOk(s: Shared, q: Query) {
    && (q.at.Checking? || q.at.Evicting? || q.at.Waiting? ==> q.view < |s.started| && s.started[q.view].namespace == q.ns)
    && (q.at.Evicting? ==> q.at.why == BadConfig && FatalOf(s, q.view) == Some(BadConfig)
                           && (q.at.inherited ==> !q.created && !q.restarted))
    && (q.at.Answered? && q.at.answer.Failed? ==> FatalOf(s, q.at.answer.id) == Some(q.at.answer.why))
    && (forall i :: 0 <= i < |q.retired| ==> Gone(s, q.retired[i]) && FatalOf(s, q.retired[i]) == Some(BadConfig))
    && (forall i, j :: 0 <= i < j < |q.retired| ==> q.retired[i] != q.retired[j])
    && |q.retired| <= (if q.restarted then 1 else 0) + (if q.at == Answered(Failed(q.view, BadConfig)) then 1 else 0)
    && |q.begun| <= 1
    && (q.at.Entering? || q.at.Reacquiring? ==> q.begun == [])
    && (q.at.Entering? ==> !q.restarted && q.broken == None)
    && (q.at.Reacquiring? ==> q.restarted)
    && (!q.created && !q.restarted ==> q.begun == [])
    && BrokenIsLeft(s, q)
  }

  /** The view found broken on entry is on its way out, and then gone for good. */
  ghost predicate BrokenIsLeft(s: Shared, q: Query) {
    q.broken.Some? ==>
      if q.restarted
      then Gone(s, q.broken.value) && (q.at.Reacquiring? || q.at == Answered(StoreClosed) || q.view != q.broken.value)
           && (q.at.Answered? && q.at.answer.Failed? ==> q.at.answer.id == q.view)
      else q.view == q.broken.value && !q.created && FatalOf(s, q.view) == Some(BadConfig)
           && (q.at.Checking? || q.at == Evicting(BadConfig, true) || q.at == Answered(GaveUp))
  }

  ghost predicate Invariant(sys: System) {
    && SharedOk(sys.shared) && CloserOk(sys.shared, sys.closer)
    && forall q :: q in sys.queries ==> QueryOk(sys.shared, sys.queries[q])
  }

  /** What no step undoes: a view's namespace, its first fatal, its end, and its departure. */
  ghost predicate Grows(s: Shared, t: Shared) {
    && |s.started| <= |t.started|
    && (s.closed ==> t.closed && t.taken == s.taken && |t.started| == |s.started|)
    && forall id :: 0 <= id < |s.started| ==>
         && t.started[id].namespace == s.started[id].namespace
         && (s.started[id].fatal.Some? ==> t.started[id].fatal == s.started[id].fatal)
         && (s.started[id].cancelled ==> t.started[id].cancelled)
         && (s.started[id].done ==> t.started[id].done)
         && (Gone(s, id) ==> Gone(t, id))
  }

  lemma QueryUnaffected(s: Shared, t: Shared, q: Query)
    requires Grows(s, t) && QueryOk(s, q)
    ensures QueryOk(t, q)
  {
  }

  lemma AcquireKeeps(s: Shared, ns: string)
    requires SharedOk(s)
    ensures SharedOk(AfterAcquire(s, ns)) && Grows(s, AfterAcquire(s, ns))
  {
    var t := AfterAcquire(s, ns);
    forall id | 0 <= id < |t.started| ensures Tracked(t, id) { assert id < |s.started| ==> Tracked(s, id); }
  }

  lemma RetireKeeps(s: Shared, ns: string, id: nat)
    requires SharedOk(s) && Finished(s, id)
    ensures SharedOk(AfterRetire(s, ns, id)) && Grows(s, AfterRetire(s, ns, id))
    ensures s.started[id].namespace == ns ==> Gone(AfterRetire(s, ns, id), id)
  {
    var t := AfterRetire(s, ns, id);
    forall other | 0 <= other < |t.started| ensures Tracked(t, other) { assert Tracked(s, other); }
  }

  lemma CloseKeeps(s: Shared)
    requires SharedOk(s)
    ensures SharedOk(AfterClose(s)) && Grows(s, AfterClose(s))
  {
    var t := AfterClose(s);
    forall id | 0 <= id < |t.started| ensures Tracked(t, id) { assert Tracked(s, id); }
  }

  lemma ViewKeeps(s: Shared, id: nat, v: Lifecycle)
    requires SharedOk(s) && id < |s.started| && v.namespace == s.started[id].namespace
    requires s.started[id].fatal.Some? ==> v.fatal == s.started[id].fatal
    requires s.started[id].cancelled ==> v.cancelled
    requires s.started[id].done ==> v.done
    requires v.done ==> v.cancelled
    ensures SharedOk(WithView(s, id, v)) && Grows(s, WithView(s, id, v))
  {
    var t := WithView(s, id, v);
    forall other | 0 <= other < |t.started| ensures Tracked(t, other) { assert Tracked(s, other); }
  }

  lemma CloserUnaffected(s: Shared, t: Shared, c: Closer)
    requires SharedOk(s) && Grows(s, t) && CloserOk(s, c) && t.closed == s.closed
    ensures CloserOk(t, c)
  {
  }

  ghost predicate Kept(s: Shared, after: (Shared, Query)) {
    SharedOk(after.0) && Grows(s, after.0) && after.0.closed == s.closed && QueryOk(after.0, after.1)
  }

  lemma EnterKeeps(s: Shared, q: Query)
    requires SharedOk(s) && QueryOk(s, q) && (q.at.Entering? || q.at.Reacquiring?)
    ensures Kept(s, Enter(s, q))
  {
    AcquireKeeps(s, q.ns);
  }

  lemma EvictKeeps(s: Shared, q: Query, luck: Luck)
    requires SharedOk(s) && QueryOk(s, q) && q.at.Evicting?
    ensures Kept(s, Proceed(s, q, luck))
  {
    hide SharedOk, Grows;
    if luck != ContextEnds && Finished(s, q.view) {
      RetireKeeps(s, q.ns, q.view);
      var t := AfterRetire(s, q.ns, q.view);
      QueryUnaffected(s, t, q);
      GoneAreNotCurrent(s, q);
    } else {
      Unchanged(s);
    }
  }

  lemma GoneAreNotCurrent(s: Shared, q: Query)
    requires QueryOk(s, q)
    ensures IsCurrent(s, q.ns, q.view) ==> q.view !in q.retired
  {
  }

  lemma Unchanged(s: Shared)
    ensures Grows(s, s)
  {
  }

  lemma CheckKeeps(s: Shared, q: Query, luck: Luck)
    requires SharedOk(s) && QueryOk(s, q) && q.at.Checking?
    ensures Kept(s, Proceed(s, q, luck))
  {
    hide SharedOk, Grows, AfterRetire, Enter;
    Unchanged(s);
  }

  lemma WaitKeeps(s: Shared, q: Query, luck: Luck)
    requires SharedOk(s) && QueryOk(s, q) && q.at.Waiting?
    ensures Kept(s, Proceed(s, q, luck))
  {
    hide SharedOk, Grows, AfterRetire, Enter;
    Unchanged(s);
  }

  lemma ProceedKeeps(s: Shared, q: Query, luck: Luck)
    requires SharedOk(s) && QueryOk(s, q)
    ensures Kept(s, Proceed(s, q, luck))
  {
    hide SharedOk, Grows;
    match q.at
    case Evicting(_, _) => EvictKeeps(s, q, luck);
    case Entering => EnterKeeps(s, q);
    case Reacquiring => EnterKeeps(s, q);
    case Checking => CheckKeeps(s, q, luck);
    case Waiting => WaitKeeps(s, q, luck);
    case Answered(_) => Unchanged(s);
  }

  lemma MoveKeeps(sys: System, q: nat, luck: Luck)
    requires Invariant(sys) && q in sys.queries
    ensures Invariant(Next(sys, Move(q, luck))) && Grows(sys.shared, Next(sys, Move(q, luck)).shared)
  {
    hide SharedOk, Grows, QueryOk, CloserOk, Proceed;
    var (t, moved) := Proceed(sys.shared, sys.queries[q], luck);
    ProceedKeeps(sys.shared, sys.queries[q], luck);
    CloserUnaffected(sys.shared, t, sys.closer);
    forall other | other in sys.queries ensures QueryOk(t, sys.queries[other]) {
      QueryUnaffected(sys.shared, t, sys.queries[other]);
    }
  }

  /** Changing only the shared part, or the closer, in a way that grows it. */
  lemma SharedStepKeeps(sys: System, t: Shared, c: Closer)
    requires Invariant(sys) && SharedOk(t) && Grows(sys.shared, t) && CloserOk(t, c)
    ensures Invariant(System(t, sys.queries, c))
  {
    hide SharedOk, Grows, QueryOk, CloserOk;
    forall q | q in sys.queries ensures QueryOk(t, sys.queries[q]) {
      QueryUnaffected(sys.shared, t, sys.queries[q]);
    }
  }

  lemma ViewStepKeeps(sys: System, id: nat, v: Lifecycle)
    requires Invariant(sys) && id < |sys.shared.started|
    requires var old' := sys.shared.started[id];
             && v.namespace == old'.namespace && (old'.fatal.Some? ==> v.fatal == old'.fatal)
             && (old'.cancelled ==> v.cancelled) && (old'.done ==> v.done) && (v.done ==> v.cancelled)
    ensures var t := WithView(sys.shared, id, v);
            Invariant(sys.(shared := t)) && Grows(sys.shared, t) && SharedOk(t) && CloserOk(t, sys.closer)
  {
    hide QueryOk, CloserOk;
    var t := WithView(sys.shared, id, v);
    ViewKeeps(sys.shared, id, v);
    CloserUnaffected(sys.shared, t, sys.closer);
    SharedStepKeeps(sys, t, sys.closer);
  }

  lemma CloseStepKeeps(sys: System, step: Step)
    requires Invariant(sys) && (step.BeginClose? || step.CloseCancels? || step.CloseWaits? || step.CloseReturns?)
    ensures Invariant(Next(sys, step)) && Grows(sys.shared, Next(sys, step).shared)
  {
    hide QueryOk, SharedOk, Grows;
    var next := Next(sys, step);
    Unchanged(sys.shared);
    if step.BeginClose? { CloseKeeps(sys.shared); }
    if step.CloseCancels? && next != sys {
      ViewStepKeeps(sys, step.id, sys.shared.started[step.id].(cancelled := true));
    }
    SharedStepKeeps(sys, next.shared, next.closer);
  }

  lemma StepKeeps(sys: System, step: Step)
    requires Invariant(sys)
    ensures Invariant(Next(sys, step)) && Grows(sys.shared, Next(sys, step).shared)
  {
    hide SharedOk, Grows, CloserOk, Proceed;
    var s := sys.shared;
    Unchanged(s);
    if Next(sys, step) != sys {
      match step
      case Ask(_, _) =>
      case Move(q, luck) => MoveKeeps(sys, q, luck);
      case Fail(id, why) => ViewStepKeeps(sys, id, s.started[id].(fatal := Some(why)));
      case CancelFailed(id) => ViewStepKeeps(sys, id, s.started[id].(cancelled := true));
      case Finish(id) => ViewStepKeeps(sys, id, s.started[id].(done := true));
      case _ => CloseStepKeeps(sys, step);
    }
  }

  lemma {:induction false} RunKeeps(sys: System, steps: seq<Step>)
    requires Invariant(sys)
    ensures Invariant(Run(sys, steps)) && Grows(sys.shared, Run(sys, steps).shared)
    decreases |steps|
  {
    if steps != [] {
      StepKeeps(sys, steps[0]);
      RunKeeps(Next(sys, steps[0]), steps[1..]);
    }
  }

  // ---- what a run promises -------------------------------------------------

  ghost predicate Reachable(sys: System) { exists steps :: sys == Run(INITIAL, steps) }

  lemma ReachableIsOk(sys: System)
    requires Reachable(sys)
    ensures Invariant(sys)
  {
    var steps :| sys == Run(INITIAL, steps);
    RunKeeps(INITIAL, steps);
  }

  lemma {:induction false} RunPush(sys: System, steps: seq<Step>, step: Step)
    ensures Run(sys, steps + [step]) == Next(Run(sys, steps), step)
    decreases |steps|
  {
    if steps != [] {
      assert (steps + [step])[1..] == steps[1..] + [step];
      RunPush(Next(sys, steps[0]), steps[1..], step);
    } else {
      assert Run(Next(sys, step), []) == Next(sys, step);
    }
  }

  lemma ReachableNext(sys: System, step: Step)
    requires Reachable(sys)
    ensures Reachable(Next(sys, step))
  {
    var steps :| sys == Run(INITIAL, steps);
    RunPush(INITIAL, steps, step);
  }

  lemma Start()
    ensures Reachable(INITIAL)
  {
    assert Run(INITIAL, []) == INITIAL;
  }

  /** At most one unfinished view per namespace ever exists. */
  lemma OneUnfinishedView(sys: System, id: nat, other: nat)
    requires Reachable(sys) && id < |sys.shared.started| && other < |sys.shared.started|
    requires sys.shared.started[id].namespace == sys.shared.started[other].namespace
    requires !sys.shared.started[id].done && !sys.shared.started[other].done
    ensures id == other
  {
    ReachableIsOk(sys);
    assert Tracked(sys.shared, id) && Tracked(sys.shared, other);
  }

  /** If the Close that closed the store returns nil, every view ever started has finished, and
      whatever happens afterwards none starts. */
  lemma CloseLeavesNothing(sys: System, steps: seq<Step>, id: nat)
    requires Reachable(sys) && sys.closer == Returned(true) && id < |Run(sys, steps).shared.started|
    ensures id < |sys.shared.started| && sys.shared.started[id].done && Run(sys, steps).shared.started[id].done
  {
    ReachableIsOk(sys);
    RunKeeps(sys, steps);
    assert Tracked(sys.shared, id);
  }

  /** Even a Close that gave up waiting has cancelled every view that had not finished. */
  lemma CloseCancelsAll(sys: System, id: nat)
    requires Reachable(sys) && sys.closer.Returned? && id < |sys.shared.started|
    ensures sys.shared.started[id].cancelled
  {
    ReachableIsOk(sys);
    assert Tracked(sys.shared, id);
  }

  /** A second Close, which returns nil at once, promises nothing of the kind: the store is closed and
      the view still runs, not even cancelled. */
  lemma SecondCloseMayReturnEarly(ns: string)
    ensures exists sys :: Reachable(sys) && sys.shared.closed && Next(sys, BeginClose) == sys
              && |sys.shared.started| == 1 && !sys.shared.started[0].cancelled
  {
    Start();
    ReachableNext(INITIAL, Ask(0, ns));
    var asked := Next(INITIAL, Ask(0, ns));
    ReachableNext(asked, Move(0, Onward));
    var entered := Next(asked, Move(0, Onward));
    ReachableNext(entered, BeginClose);
    assert Next(Next(entered, BeginClose), BeginClose) == Next(entered, BeginClose);
  }

  /** A query starts at most one view and restarts at most once. It retires at most two: an inherited
      broken view before its restart, and the view its own wait then saw break. Every retired view
      had a bad configuration, has finished, and is never handed out again. */
  lemma QueryBudget(sys: System, q: nat)
    requires Reachable(sys) && q in sys.queries
    ensures var query := sys.queries[q];
            && |query.begun| <= 1 && |query.retired| <= 2
            && (|query.retired| == 2 ==> query.restarted && query.at == Answered(Failed(query.view, BadConfig)))
            && (query.at == Answered(Ready) ==> |query.retired| <= 1)
            && (forall id :: id in query.retired ==> Gone(sys.shared, id) && FatalOf(sys.shared, id) == Some(BadConfig))
  {
    ReachableIsOk(sys);
  }

  /** What a waiting query's next move brings, exactly when. Its own context comes first, then the
      view's failure, then readiness, and a view that just stopped comes last. */
  lemma WaitingAnswers(s: Shared, q: Query, luck: Luck)
    requires q.at.Waiting? && q.view < |s.started|
    ensures var v := s.started[q.view];
            var (t, moved) := Proceed(s, q, luck);
            && t == s && moved == q.(at := moved.at)
            && (moved.at == Answered(GaveUp) <==> luck == ContextEnds)
            && (moved.at == Evicting(BadConfig, false) <==> luck != ContextEnds && v.fatal == Some(BadConfig))
            && (moved.at == Answered(Failed(q.view, Corrupt)) <==> luck != ContextEnds && v.fatal == Some(Corrupt))
            && (moved.at == Answered(Ready) <==> luck == CaughtUp && v.fatal == None)
            && (moved.at == Answered(StoreClosed) <==> luck == Onward && v.fatal == None && v.done)
            && (moved.at == Waiting <==> luck == Onward && v.fatal == None && !v.done)
  {
  }

  /** A query that has just been given a view fails at once only on a fatal of its own doing, or on one
      that repair cannot mend, or after its one restart. */
  lemma CheckingAnswers(s: Shared, q: Query, luck: Luck)
    requires q.at.Checking? && q.view < |s.started|
    ensures var v := s.started[q.view];
            var (t, moved) := Proceed(s, q, luck);
            && t == s && moved == q.(at := moved.at)
            && (moved.at == Waiting <==> v.fatal == None)
            && (moved.at == Evicting(BadConfig, true) <==> v.fatal == Some(BadConfig) && !q.created && !q.restarted)
            && (v.fatal.Some? && (v.fatal.value == Corrupt || q.created || q.restarted) <==>
                  moved.at == Answered(Failed(q.view, if v.fatal.Some? then v.fatal.value else Corrupt)))
  {
  }

  /** An eviction waits for the view to finish, then drops it if it is still registered; an inherited
      failure leads to one more try, any other to the failure itself. */
  lemma EvictingAnswers(s: Shared, q: Query, luck: Luck)
    requires q.at.Evicting? && q.view < |s.started|
    ensures var v := s.started[q.view];
            var (t, moved) := Proceed(s, q, luck);
            var current := q.ns in s.current && s.current[q.ns] == q.view;
            if luck == ContextEnds then t == s && moved == q.(at := Answered(GaveUp))
            else if !v.done then t == s && moved == q
            else
              && t == (if current then s.(current := s.current - {q.ns}) else s)
              && moved.retired == (if current then q.retired + [q.view] else q.retired)
              && moved.at == (if q.at.inherited then Reacquiring else Answered(Failed(q.view, q.at.why)))
              && (q.at.inherited ==> moved.restarted) && moved.view == q.view
  {
  }

  /** The second retirement happens exactly when a restarted query, its first retirement its own, sees
      the view it waited for break, outlives that view, and finds it still registered. */
  lemma SecondRetirement(sys: System, q: nat, luck: Luck)
    requires Reachable(sys) && q in sys.queries && |sys.queries[q].retired| < 2
    ensures var query := sys.queries[q];
            |Next(sys, Move(q, luck)).queries[q].retired| == 2 <==>
            && query.restarted && |query.retired| == 1 && query.at == Evicting(BadConfig, false)
            && luck != ContextEnds && Finished(sys.shared, query.view) && IsCurrent(sys.shared, query.ns, query.view)
  {
    hide SharedOk, CloserOk;
    ReachableIsOk(sys);
  }

  /** The view's stream turns out misconfigured: it fails, cancels itself and finishes. */
  function AfterBreak(sys: System, id: nat): System
    requires id < |sys.shared.started|
  {
    sys.(shared := WithView(sys.shared, id, Lifecycle(sys.shared.started[id].namespace, Some(BadConfig), true, true)))
  }

  lemma BreakReachable(sys: System, id: nat)
    requires Reachable(sys) && id < |sys.shared.started|
    requires !sys.shared.started[id].done && sys.shared.started[id].fatal.None?
    ensures Reachable(AfterBreak(sys, id))
  {
    assert Next(Next(Next(sys, Fail(id, BadConfig)), CancelFailed(id)), Finish(id)) == AfterBreak(sys, id);
    ReachableNext(sys, Fail(id, BadConfig));
    ReachableNext(Next(sys, Fail(id, BadConfig)), CancelFailed(id));
    ReachableNext(Next(Next(sys, Fail(id, BadConfig)), CancelFailed(id)), Finish(id));
  }

  /** A view of ns whose stream was misconfigured, and the first query, which started it. */
  function Broken(ns: string): Lifecycle { Lifecycle(ns, Some(BadConfig), true, true) }

  function Starter(ns: string): Query { Query(ns, Checking, 0, true, false, [0], [], None) }

  function OneBroken(ns: string): System {
    System(Shared([Broken(ns)], map[ns := 0], false, {}), map[0 := Starter(ns)], Idle)
  }

  /** The second query has retired that view and waits for the one it started instead. */
  function Restarted(ns: string): System {
    System(Shared([Broken(ns), Lifecycle(ns, None, false, false)], map[ns := 1], false, {}),
           map[0 := Starter(ns), 1 := Query(ns, Waiting, 1, true, true, [1], [0], Some(0))], Idle)
  }

  lemma OneBrokenReachable(ns: string)
    ensures Reachable(OneBroken(ns))
  {
    Start();
    ReachableNext(INITIAL, Ask(0, ns));
    var asked := Next(INITIAL, Ask(0, ns));
    ReachableNext(asked, Move(0, Onward));
    var entered := Next(asked, Move(0, Onward));
    assert Proceed(EMPTY, NewQuery(ns), Onward).1 == Starter(ns);
    assert entered.queries == map[0 := Starter(ns)] && entered.shared.current == map[ns := 0];
    assert entered.shared.started == [Lifecycle(ns, None, false, false)];
    assert entered == System(Shared([Lifecycle(ns, None, false, false)], map[ns := 0], false, {}), map[0 := Starter(ns)], Idle);
    BreakReachable(entered, 0);
    assert AfterBreak(entered, 0).shared.started == [Broken(ns)];
    assert AfterBreak(entered, 0) == OneBroken(ns);
  }

  /** Where the second query stands after each of its moves. */
  lemma RestartedReachable(ns: string)
    ensures Reachable(Restarted(ns))
  {
    hide Reachable, Next;
    OneBrokenReachable(ns);
    var sys := OneBroken(ns);
    var s := sys.shared;
    var q1 := NewQuery(ns);
    var q2 := q1.(at := Checking, broken := Some(0));
    var q3 := q2.(at := Evicting(BadConfig, true));
    var q4 := q3.(at := Reacquiring, restarted := true, retired := [0]);
    var q5 := q4.(at := Checking, view := 1, created := true, begun := [1]);
    var q6 := q5.(at := Waiting);
    var dropped := s.(current := map[]);
    var added := Restarted(ns).shared;
    assert s.current - {ns} == map[] && map[][ns := 1] == map[ns := 1];
    assert s.started + [Lifecycle(ns, None, false, false)] == added.started;
    AskReachable(sys, 1, ns);
    QueryMoves(sys, s, q1, s, q2);
    QueryMoves(sys, s, q2, s, q3);
    assert AfterRetire(s, ns, 0) == dropped && IsCurrent(s, ns, 0) && [] + [0] == [0];
    assert Proceed(s, q3, Onward).1 == q4;
    QueryMoves(sys, s, q3, dropped, q4);
    assert AfterAcquire(dropped, ns) == added && Acquire(dropped, ns) == Got(1, true) && [] + [1] == [1];
    assert Enter(dropped, q4).1 == q5;
    QueryMoves(sys, dropped, q4, added, q5);
    QueryMoves(sys, added, q5, added, q6);
    assert With(sys, added, q6).queries == Restarted(ns).queries;
  }

  lemma AskReachable(sys: System, q: nat, ns: string)
    requires Reachable(sys) && q !in sys.queries
    ensures Reachable(sys.(queries := sys.queries[q := NewQuery(ns)]))
  {
    ReachableNext(sys, Ask(q, ns));
  }

  function With(sys: System, s: Shared, q: Query): System { sys.(shared := s, queries := sys.queries[1 := q]) }

  lemma QueryMoves(sys: System, s: Shared, q: Query, t: Shared, moved: Query)
    requires Reachable(With(sys, s, q)) && Proceed(s, q, Onward) == (t, moved)
    ensures Reachable(With(sys, t, moved))
  {
    ReachableNext(With(sys, s, q), Move(1, Onward));
    assert sys.queries[1 := q][1 := moved] == sys.queries[1 := moved];
  }

  /** One query can indeed retire two views: the broken one it inherited and, its stream still
      unrepaired, the one it started in its place. */
  lemma QueryMayRetireTwo(ns: string)
    ensures exists sys, q :: Reachable(sys) && q in sys.queries && sys.queries[q].retired == [0, 1]
  {
    RestartedReachable(ns);
    BreakReachable(Restarted(ns), 1);
    var s1 := AfterBreak(Restarted(ns), 1);
    ReachableNext(s1, Move(1, Onward));
    var s2 := Next(s1, Move(1, Onward));
    assert s2.queries[1].at == Evicting(BadConfig, false);
    ReachableNext(s2, Move(1, Onward));
    assert Next(s2, Move(1, Onward)).queries[1].retired == [0, 1];
  }

  /** Operator repair takes effect on the next query: a view found broken on entry is never the
      reason the query fails; by the time it fails it has tried another. */
  lemma InheritedFailureIsNotReported(sys: System, q: nat)
    requires Reachable(sys) && q in sys.queries && sys.queries[q].at.Answered?
    requires sys.queries[q].broken.Some? && sys.queries[q].at.answer.Failed?
    ensures sys.queries[q].restarted && sys.queries[q].at.answer.id != sys.queries[q].broken.value
    ensures Gone(sys.shared, sys.queries[q].broken.value)
  {
    ReachableIsOk(sys);
  }

  // ---- the critical sections, in place -------------------------------------

  /** The registry the store updates under its mutex; views are reached by their number. */
  class Registry {
    var started: seq<Lifecycle>
    var views: map<string, nat>
    var closed: bool
    ghost var taken: set<nat>

    constructor ()
      ensures Now() == EMPTY
    {
      started, views, closed, taken := [], map[], false, {};
    }

    ghost function Now(): Shared reads this { Shared(started, views, closed, taken) }

    method AcquireView(ns: string) returns (r: Acquisition)
      requires SharedOk(Now())
      modifies this
      ensures SharedOk(Now()) && Grows(old(Now()), Now())
      ensures r == Acquire(old(Now()), ns) && Now() == AfterAcquire(old(Now()), ns)
      ensures r.Got? ==> r.id < |started| && started[r.id].namespace == ns && ns in views && views[ns] == r.id
      ensures r.Refused? <==> old(closed)
      ensures !old(closed) && ns in old(views) ==> r == Got(old(views)[ns], false) && started == old(started)
      ensures !old(closed) && ns !in old(views) ==>
                && r == Got(|old(started)|, true) && started == old(started) + [Lifecycle(ns, None, false, false)]
                && views == old(views)[ns := r.id]
    {
      AcquireKeeps(Now(), ns);
      if closed { return Refused; }
      if ns in views { return Got(views[ns], false); }
      r := Got(|started|, true);
      views := views[ns := |started|];
      started := started + [Lifecycle(ns, None, false, false)];
    }

    /** The last section of an eviction, entered once the view has finished. */
    method Retire(ns: string, id: nat) returns (retired: bool)
      requires SharedOk(Now()) && Finished(Now(), id) && started[id].namespace == ns
      modifies this
      ensures SharedOk(Now()) && Grows(old(Now()), Now())
      ensures Now() == AfterRetire(old(Now()), ns, id) && Gone(Now(), id)
      ensures retired <==> ns in old(views) && old(views)[ns] == id
      ensures views == (if retired then old(views) - {ns} else old(views)) && started == old(started) && closed == old(closed)
    {
      RetireKeeps(Now(), ns, id);
      retired := ns in views && views[ns] == id;
      if retired { views := views - {ns}; }
    }

    /** The section of Close that shuts the store and takes over its views; None on a second call. */
    method Shut() returns (r: Option<set<nat>>)
      requires SharedOk(Now())
      modifies this
      ensures SharedOk(Now()) && Grows(old(Now()), Now()) && closed
      ensures Now() == AfterClose(old(Now()))
      ensures r == if old(closed) then None else Some(old(views).Values)
      ensures started == old(started) && (!old(closed) ==> views == map[])
      ensures r.Some? ==> forall id :: 0 <= id < |started| && !started[id].done ==> id in r.value
    {
      CloseKeeps(Now());
      if closed { return None; }
      closed := true;
      r := Some(views.Values);
      taken, views := views.Values, map[];
      assert forall id :: 0 <= id < |started| && !started[id].done ==> Tracked(Now(), id);
    }
  }
}
