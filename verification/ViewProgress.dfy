/** Why waiting for a captured tip is not waiting forever: superseded messages vanish, but the
    stream's last message never does, so a subscription that keeps delivering reaches the tip. */
module ViewProgress {
  import opened OrderedStream
  import opened ViewAgreement

  /** The subscription has handled all it was sent, up to what is still in flight. */
  ghost predicate Tight(sys: System) {
    if sys.inflight == [] then sys.handled == sys.sent else sys.inflight[|sys.inflight| - 1].seqno == sys.sent
  }

  lemma {:induction false} TightAlways(sys: System, steps: seq<Step>)
    requires Tight(sys)
    ensures Tight(Run(sys, steps))
    decreases |steps|
  {
    hide Replay, LegalEntry, Sendable;
    if steps != [] { TightAlways(Next(sys, steps[0]), steps[1..]); }
  }

  ghost predicate LiveBeyond(st: StreamState, sent: nat) {
    exists s :: s in st.msgs && sent < st.msgs[s].seqno
  }

  /** The last sequence assigned is always that of a live message. */
  lemma TipIsLive(log: seq<Entry>, sent: nat)
    requires LegalLog(log) && sent < Replay(log).tip
    ensures LiveBeyond(Replay(log), sent)
  {
    var front, e := log[..|log| - 1], log[|log| - 1];
    var st := Replay(front);
    if |e.batch| == 2 { StoreTwo(st, e.batch); } else { StoreOne(st, e.batch); }
    var last := e.batch[|e.batch| - 1].subject;
    assert Replay(log) == StoreAll(st, e.batch);
    assert last in Replay(log).msgs && Replay(log).msgs[last].seqno == Replay(log).tip;
  }

  /** Among live messages beyond what was sent there is a next one. */
  lemma NextToSend(st: StreamState, sent: nat) returns (s: Subject)
    requires LiveBeyond(st, sent)
    ensures Sendable(st, sent, s)
  {
    var best :| best in st.msgs && sent < st.msgs[best].seqno;
    s := NextBelow(st, sent, best);
  }

  lemma {:induction false} NextBelow(st: StreamState, sent: nat, best: Subject) returns (s: Subject)
    requires best in st.msgs && sent < st.msgs[best].seqno
    ensures Sendable(st, sent, s)
    decreases st.msgs[best].seqno
  {
    if better :| better in st.msgs && sent < st.msgs[better].seqno < st.msgs[best].seqno {
      s := NextBelow(st, sent, better);
    } else {
      s := best;
    }
  }

  /** Main result on waiting: from any reachable state, deliveries alone bring the watermark to the
      tip, without a commit, a re-attachment, or luck. */
  lemma {:induction false} CatchesUp(sys: System) returns (steps: seq<Step>)
    requires Invariant(sys) && Tight(sys)
    ensures forall i :: 0 <= i < |steps| ==> steps[i].Send? || steps[i].Handle?
    ensures Run(sys, steps).log == sys.log && Run(sys, steps).watermark == Replay(sys.log).tip
    decreases Replay(sys.log).tip - sys.sent, |sys.inflight|
  {
    hide LegalLog, Agrees, OnlyCommitted, InflightOk, Covered, Sendable, Replay;
    if sys.inflight == [] && sys.sent == Replay(sys.log).tip { return []; }
    var step := Handle;
    if sys.inflight == [] {
      TipIsLive(sys.log, sys.sent);
      var s := NextToSend(Replay(sys.log), sys.sent);
      SentIsBeyond(sys, s);
      step := Send(s);
    }
    StepKeeps(sys, step);
    TightAlways(sys, [step]);
    assert Run(sys, [step]) == Run(Next(sys, step), []) == Next(sys, step);
    var rest := CatchesUp(Next(sys, step));
    steps := [step] + rest;
    assert steps[1..] == rest;
  }

  lemma SentIsBeyond(sys: System, s: Subject)
    requires Sendable(Replay(sys.log), sys.sent, s)
    ensures Next(sys, Send(s)).sent > sys.sent
  {
  }

  // ---- every run makes progress --------------------------------------------

  /** How many deliveries are to be handled until one at or beyond target is. */
  function Ahead(inflight: seq<Delivery>, target: nat): nat {
    if inflight == [] then 0 else if target <= inflight[0].seqno then 1 else 1 + Ahead(inflight[1..], target)
  }

  /** How much separates the view from target: a bound on the deliveries still needed. */
  function Remaining(sys: System, target: nat): nat {
    if target <= sys.watermark then 0
    else 2 * (if sys.sent < target then target - sys.sent else 0) + Ahead(sys.inflight, target)
  }

  /** The steps that bring the view closer: handling a delivery, or sending one the target still needs. */
  predicate Useful(sys: System, step: Step, target: nat) {
    && sys.watermark < target
    && ((step.Handle? && sys.inflight != []) || (step.Send? && Sendable(Replay(sys.log), sys.sent, step.subject) && sys.sent < target))
  }

  lemma {:induction false} AheadGrows(inflight: seq<Delivery>, d: Delivery, target: nat)
    ensures Ahead(inflight + [d], target) <= Ahead(inflight, target) + 1
    ensures inflight != [] && target <= inflight[|inflight| - 1].seqno ==> Ahead(inflight + [d], target) == Ahead(inflight, target)
  {
    if inflight != [] {
      assert (inflight + [d])[1..] == inflight[1..] + [d];
      AheadGrows(inflight[1..], d, target);
    } else {
      assert (inflight + [d])[1..] == [];
    }
  }

  lemma SendRemaining(sys: System, s: Subject, target: nat)
    requires Invariant(sys) && Tight(sys) && Sendable(Replay(sys.log), sys.sent, s) && sys.watermark < target
    ensures var next := Next(sys, Send(s));
            Remaining(next, target) <= Remaining(sys, target) && (sys.sent < target ==> Remaining(next, target) < Remaining(sys, target))
  {
    AheadGrows(sys.inflight, HeadDelivery(Replay(sys.log), s), target);
  }

  /** A commit, a delivery and even a failure leave the view no further from the target, and a useful
      step brings it closer. */
  lemma StepRemaining(sys: System, step: Step, target: nat)
    requires Invariant(sys) && Tight(sys) && !step.Attach? && !step.Resume?
    ensures Remaining(Next(sys, step), target) <= Remaining(sys, target)
    ensures Useful(sys, step, target) ==> Remaining(Next(sys, step), target) < Remaining(sys, target)
  {
    hide Invariant, Replay, LegalEntry, Sendable;
    if step.Send? && Sendable(Replay(sys.log), sys.sent, step.subject) && sys.watermark < target {
      SendRemaining(sys, step.subject, target);
    }
  }

  /** As long as the target is not reached there is a useful step to take, and only then. */
  lemma UsefulUntilReached(sys: System, target: nat)
    requires Invariant(sys) && Tight(sys) && target <= Replay(sys.log).tip
    ensures (exists step :: Useful(sys, step, target)) <==> sys.watermark < target
    ensures Remaining(sys, target) == 0 <==> target <= sys.watermark
  {
    if sys.watermark < target {
      if sys.inflight != [] {
        assert Useful(sys, Handle, target);
      } else {
        TipIsLive(sys.log, sys.sent);
        var s := NextToSend(Replay(sys.log), sys.sent);
        assert Useful(sys, Send(s), target);
      }
    }
  }

  function UsefulSteps(sys: System, steps: seq<Step>, target: nat): nat
    decreases |steps|
  {
    if steps == [] then 0
    else (if Useful(sys, steps[0], target) then 1 else 0) + UsefulSteps(Next(sys, steps[0]), steps[1..], target)
  }

  /** Main result on termination: on one subscription, whatever is committed meanwhile, a run takes no
      more useful steps than separate it from its target, and one that took that many is there. */
  lemma {:induction false} WaitingEnds(sys: System, steps: seq<Step>, target: nat)
    requires Invariant(sys) && Tight(sys) && target <= Replay(sys.log).tip
    requires forall i :: 0 <= i < |steps| ==> !steps[i].Attach? && !steps[i].Resume?
    ensures UsefulSteps(sys, steps, target) + Remaining(Run(sys, steps), target) <= Remaining(sys, target)
    ensures UsefulSteps(sys, steps, target) == Remaining(sys, target) ==> target <= Run(sys, steps).watermark
    decreases |steps|
  {
    hide Invariant, Replay, LegalEntry, Sendable, Useful, Remaining, Tight, Next;
    if steps == [] {
      UsefulUntilReached(sys, target);
    } else {
      var next := Next(sys, steps[0]);
      StepRemaining(sys, steps[0], target);
      StepKeeps(sys, steps[0]);
      TightAlways(sys, [steps[0]]);
      assert Run(sys, [steps[0]]) == Run(next, []) == next;
      TipStays(sys, steps[0]);
      WaitingEnds(next, steps[1..], target);
    }
  }

  lemma TipStays(sys: System, step: Step)
    requires Invariant(sys)
    ensures Replay(sys.log).tip <= Replay(Next(sys, step).log).tip
  {
    hide Replay, LegalEntry, Sendable;
    StepKeeps(sys, step);
    TipGrows(sys.log, Next(sys, step).log);
  }
}
