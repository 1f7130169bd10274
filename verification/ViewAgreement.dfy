/** The materialized view against the stream it is derived from. The stream keeps one
    message per subject, so a head that is still waiting to be delivered can be superseded
    and vanish; the subscription may break and restart; and writers never stop. */
module ViewAgreement {
  import opened Storage
  import opened OrderedStream
  import opened SortOrder
  import opened OrderedStore
  import opened OrderedView
  import opened Listings

  datatype Delivery = Delivery(subject: Subject, seqno: nat, data: Payload)

  /** The stream's history, one subscription (what the server has sent on it and not yet been
      handled, the last sequence sent, the last handled), and the view it feeds. */
  datatype System = System(
    log: seq<Entry>,
    inflight: seq<Delivery>, sent: nat, handled: nat,
    records: Records, watermark: nat)

  datatype Step =
    | Commit(e: Entry)
    | Send(subject: Subject)
    | Handle
    | Attach
    | Resume
    | Fail

  const INITIAL := System([], [], 0, 0, map[], 0)

  /** The server next sends the live message with the smallest sequence beyond the last one sent. */
  predicate Sendable(st: StreamState, sent: nat, s: Subject) {
    && s in st.msgs && sent < st.msgs[s].seqno
    && forall t :: t in st.msgs && sent < st.msgs[t].seqno ==> st.msgs[s].seqno <= st.msgs[t].seqno
  }

  function AfterHandling(sys: System): System
    requires sys.inflight != []
  {
    var d := sys.inflight[0];
    var records := if d.subject.RecordSubject? && d.data.RecordPayload? then Upserted(sys.records, d.data.rec) else sys.records;
    sys.(inflight := sys.inflight[1..], handled := d.seqno, records := records,
         watermark := if d.seqno <= sys.watermark then sys.watermark else d.seqno)
  }

  /** One step of the whole; a step that cannot be taken changes nothing. Attach starts over from the
      live heads, Resume from just after the last message handled on this subscription. */
  function Next(sys: System, step: Step): System {
    var st := Replay(sys.log);
    match step
    case Commit(e) => if LegalEntry(st, e) then sys.(log := sys.log + [e]) else sys
    case Send(s) =>
      if Sendable(st, sys.sent, s)
      then sys.(inflight := sys.inflight + [Delivery(s, st.msgs[s].seqno, st.msgs[s].data)], sent := st.msgs[s].seqno)
      else sys
    case Handle => if sys.inflight == [] then sys else AfterHandling(sys)
    case Attach => sys.(inflight := [], sent := 0, handled := 0)
    case Resume => sys.(inflight := [], sent := sys.handled)
    case Fail => sys
  }

  function Run(sys: System, steps: seq<Step>): System
    decreases |steps|
  {
    if steps == [] then sys else Run(Next(sys, steps[0]), steps[1..])
  }

  // ---- the invariant -------------------------------------------------------

  ghost predicate WasCommitted(log: seq<Entry>, rec: OrderedRecord) {
    1 <= rec.revision <= |Versions(log, rec.id)| && Versions(log, rec.id)[rec.revision - 1] == rec
  }

  ghost predicate Held(st: StreamState, records: Records, id: Identity) {
    id in records && Head(st, id) == Some(records[id])
  }

  /** The view holds nothing that was never committed. */
  ghost predicate OnlyCommitted(sys: System) {
    forall id :: id in sys.records ==> sys.records[id].id == id && WasCommitted(sys.log, sys.records[id])
  }

  /** Every live head at or below the watermark is in the view, exactly. */
  ghost predicate Agrees(sys: System) {
    var st := Replay(sys.log);
    forall id :: Head(st, id).Some? && LastSeq(st, RecordSubject(id)) <= sys.watermark ==> Held(st, sys.records, id)
  }

  function HeadDelivery(st: StreamState, s: Subject): Delivery
    requires s in st.msgs
  {
    Delivery(s, st.msgs[s].seqno, st.msgs[s].data)
  }

  /** What is still under way is in stream order, beyond what was handled, and was committed. */
  ghost predicate InflightOk(sys: System) {
    && (forall i :: 0 <= i < |sys.inflight| ==> sys.handled < sys.inflight[i].seqno <= sys.sent)
    && (forall i, j :: 0 <= i < j < |sys.inflight| ==> sys.inflight[i].seqno < sys.inflight[j].seqno)
    && (forall i :: 0 <= i < |sys.inflight| && sys.inflight[i].subject.RecordSubject? ==>
          && sys.inflight[i].data.RecordPayload?
          && sys.inflight[i].data.rec.id == sys.inflight[i].subject.id
          && WasCommitted(sys.log, sys.inflight[i].data.rec))
  }

  /** Every live head the subscription has reached is in the view or on its way to it. */
  ghost predicate Covered(sys: System) {
    var st := Replay(sys.log);
    forall id :: RecordSubject(id) in st.msgs && LastSeq(st, RecordSubject(id)) <= sys.sent ==>
      Held(st, sys.records, id) || HeadDelivery(st, RecordSubject(id)) in sys.inflight
  }

  ghost predicate Invariant(sys: System) {
    && LegalLog(sys.log)
    && sys.handled <= sys.watermark <= Replay(sys.log).tip
    && sys.handled <= sys.sent <= Replay(sys.log).tip
    && OnlyCommitted(sys) && Agrees(sys) && InflightOk(sys) && Covered(sys)
  }

  // ---- facts about committed records ---------------------------------------

  lemma CommittedStays(early: seq<Entry>, later: seq<Entry>, rec: OrderedRecord)
    requires early <= later && WasCommitted(early, rec)
    ensures WasCommitted(later, rec)
  {
    VersionsGrow(early, later, rec.id);
  }

  /** A committed version that is as new as the head is the head. */
  lemma NoNewerThanHead(log: seq<Entry>, rec: OrderedRecord)
    requires LegalLog(log) && WasCommitted(log, rec)
    ensures Head(Replay(log), rec.id).Some? && ValidRecord(rec)
    ensures var head := Head(Replay(log), rec.id).value;
            rec.revision <= head.revision && (rec.revision == head.revision ==> rec == head)
            && rec.order == head.order
  {
    HistoryIsChain(log, rec.id);
  }

  lemma HeadWasCommitted(log: seq<Entry>, id: Identity)
    requires LegalLog(log) && Head(Replay(log), id).Some?
    ensures Head(Replay(log), id).value.id == id && WasCommitted(log, Head(Replay(log), id).value)
  {
    HistoryIsChain(log, id);
  }

  /** Handling any committed record, however old, leaves a held head held. */
  lemma HeldStays(log: seq<Entry>, records: Records, rec: OrderedRecord, id: Identity)
    requires LegalLog(log) && WasCommitted(log, rec) && Held(Replay(log), records, id)
    ensures Held(Replay(log), Upserted(records, rec), id)
  {
    NoNewerThanHead(log, rec);
  }

  /** Handling the head itself makes it held, whatever version was there. */
  lemma HeadBecomesHeld(log: seq<Entry>, records: Records, rec: OrderedRecord)
    requires LegalLog(log) && WasCommitted(log, rec) && Head(Replay(log), rec.id) == Some(rec)
    requires rec.id in records ==> records[rec.id].id == rec.id && WasCommitted(log, records[rec.id])
    ensures Held(Replay(log), Upserted(records, rec), rec.id)
  {
    if rec.id in records { NoNewerThanHead(log, records[rec.id]); }
  }

  /** The write protocol supplies what the view's indexes rely on. */
  lemma CommittedIsAdmissible(sys: System, rec: OrderedRecord)
    requires LegalLog(sys.log) && OnlyCommitted(sys) && WasCommitted(sys.log, rec)
    ensures WellKeyed(sys.records) && Admissible(sys.records, rec)
  {
    var st := Replay(sys.log);
    OrdersStayExact(sys.log);
    NoNewerThanHead(sys.log, rec);
    forall id | id in sys.records
      ensures Head(st, id).Some? && sys.records[id].order == Head(st, id).value.order
    {
      NoNewerThanHead(sys.log, sys.records[id]);
    }
  }

  lemma StepKeepsSeqsDistinct(st: StreamState, e: Entry, next: StreamState, s: Subject, t: Subject)
    requires WellFormed(st) && LegalEntry(st, e) && next == StoreAll(st, e.batch)
    requires s in st.msgs && t in st.msgs ==> st.msgs[s].seqno != st.msgs[t].seqno
    requires s in next.msgs && t in next.msgs && s != t
    ensures next.msgs[s].seqno != next.msgs[t].seqno
  {
    hide StoreAll;
    if |e.batch| == 2 { StoreTwo(st, e.batch); } else { StoreOne(st, e.batch); }
    hide LegalEntry;
    assert s in st.msgs ==> st.msgs[s].seqno <= st.tip;
    assert t in st.msgs ==> st.msgs[t].seqno <= st.tip;
  }

  lemma {:induction false} SeqsAreDistinct(log: seq<Entry>, s: Subject, t: Subject)
    requires LegalLog(log) && s in Replay(log).msgs && t in Replay(log).msgs && s != t
    ensures Replay(log).msgs[s].seqno != Replay(log).msgs[t].seqno
  {
    if log != [] {
      var front, e := log[..|log| - 1], log[|log| - 1];
      LegalLogWellFormed(front);
      if s in Replay(front).msgs && t in Replay(front).msgs { SeqsAreDistinct(front, s, t); }
      StepKeepsSeqsDistinct(Replay(front), e, Replay(log), s, t);
    }
  }

  // ---- every step keeps the invariant --------------------------------------

  lemma CommitKeeps(sys: System, e: Entry)
    requires Invariant(sys) && LegalEntry(Replay(sys.log), e)
    ensures Invariant(Next(sys, Commit(e)))
  {
    hide Versions, LegalEntry, VersionChain;
    var next := Next(sys, Commit(e));
    var st, st' := Replay(sys.log), Replay(next.log);
    ReplayPush(sys.log, e);
    LegalLogWellFormed(sys.log);
    LegalStepAdvances(st, e, st');
    forall rec | WasCommitted(sys.log, rec) ensures WasCommitted(next.log, rec) { CommittedStays(sys.log, next.log, rec); }
    forall id | RecordSubject(id) in st'.msgs && st'.msgs[RecordSubject(id)].seqno <= st.tip
      ensures RecordSubject(id) in st.msgs && st'.msgs[RecordSubject(id)] == st.msgs[RecordSubject(id)] {}
  }

  lemma SendKeepsCovered(sys: System, s: Subject)
    requires Invariant(sys) && Sendable(Replay(sys.log), sys.sent, s)
    ensures Covered(Next(sys, Send(s)))
  {
    var next := Next(sys, Send(s));
    var st := Replay(sys.log);
    hide Versions, LegalLog, Replay, Held, InflightOk, Agrees, OnlyCommitted;
    forall id | RecordSubject(id) in st.msgs && LastSeq(st, RecordSubject(id)) <= next.sent
      ensures Held(st, next.records, id) || HeadDelivery(st, RecordSubject(id)) in next.inflight
    {
      if sys.sent < st.msgs[RecordSubject(id)].seqno {
        if RecordSubject(id) != s { SeqsAreDistinct(sys.log, RecordSubject(id), s); }
        assert next.inflight[|sys.inflight|] == HeadDelivery(st, s);
      } else {
        assert forall d :: d in sys.inflight ==> d in next.inflight;
      }
    }
  }

  lemma SendKeepsInflight(sys: System, s: Subject)
    requires Invariant(sys) && Sendable(Replay(sys.log), sys.sent, s)
    ensures InflightOk(Next(sys, Send(s)))
  {
    LegalLogWellFormed(sys.log);
    if s.RecordSubject? { HeadWasCommitted(sys.log, s.id); }
    hide Versions, LegalLog, Replay, WasCommitted, Covered, Agrees, OnlyCommitted;
  }

  lemma SendKeeps(sys: System, s: Subject)
    requires Invariant(sys) && Sendable(Replay(sys.log), sys.sent, s)
    ensures Invariant(Next(sys, Send(s)))
  {
    SendKeepsCovered(sys, s);
    SendKeepsInflight(sys, s);
    LegalLogWellFormed(sys.log);
    hide Versions, LegalLog, Replay, WasCommitted, Covered, InflightOk, Held;
  }

  lemma HandleKeeps(sys: System)
    requires Invariant(sys) && sys.inflight != []
    ensures Invariant(AfterHandling(sys))
  {
    hide Versions, LegalLog;
    var next, st, d := AfterHandling(sys), Replay(sys.log), sys.inflight[0];
    LegalLogWellFormed(sys.log);
    assert sys.inflight == [d] + next.inflight;
    forall i | 0 <= i < |next.inflight| ensures d.seqno < next.inflight[i].seqno { assert sys.inflight[i + 1] == next.inflight[i]; }
    forall id | Head(st, id).Some? && (LastSeq(st, RecordSubject(id)) <= sys.watermark || HeadDelivery(st, RecordSubject(id)) == d || Held(st, sys.records, id))
      ensures Held(st, next.records, id)
    {
      if d.subject.RecordSubject? {
        if HeadDelivery(st, RecordSubject(id)) == d && !Held(st, sys.records, id) {
          HeadBecomesHeld(sys.log, sys.records, d.data.rec);
        } else {
          HeldStays(sys.log, sys.records, d.data.rec, id);
        }
      }
    }
    forall id | Head(st, id).Some? && LastSeq(st, RecordSubject(id)) <= next.watermark ensures Held(st, next.records, id) {
      assert HeadDelivery(st, RecordSubject(id)) !in next.inflight || LastSeq(st, RecordSubject(id)) <= sys.watermark;
    }
  }

  lemma RestartKeeps(sys: System)
    requires Invariant(sys)
    ensures Invariant(Next(sys, Attach)) && Invariant(Next(sys, Resume))
  {
    LegalLogWellFormed(sys.log);
    var st := Replay(sys.log);
    forall id | RecordSubject(id) in st.msgs && LastSeq(st, RecordSubject(id)) <= sys.handled ensures Held(st, sys.records, id) {
      assert HeadDelivery(st, RecordSubject(id)) !in sys.inflight;
    }
  }

  lemma StepKeeps(sys: System, step: Step)
    requires Invariant(sys)
    ensures Invariant(Next(sys, step))
  {
    hide Invariant, LegalEntry, Sendable, Replay;
    match step
    case Commit(e) => if LegalEntry(Replay(sys.log), e) { CommitKeeps(sys, e); }
    case Send(s) => if Sendable(Replay(sys.log), sys.sent, s) { SendKeeps(sys, s); }
    case Handle => if sys.inflight != [] { HandleKeeps(sys); }
    case Attach => RestartKeeps(sys);
    case Resume => RestartKeeps(sys);
    case Fail =>
  }

  /** Main result on the view: through any run of commits, deliveries, superseded heads, redeliveries
      and re-attachments, every live head at or below the watermark is in the view exactly, and
      nothing is in the view that was never committed. */
  lemma {:induction false} ViewAgrees(sys: System, steps: seq<Step>)
    requires Invariant(sys)
    ensures Invariant(Run(sys, steps))
    decreases |steps|
  {
    if steps != [] {
      StepKeeps(sys, steps[0]);
      ViewAgrees(Next(sys, steps[0]), steps[1..]);
    }
  }

  lemma InitialInvariant()
    ensures Invariant(INITIAL)
  {
  }

  // ---- queries -------------------------------------------------------------

  ghost predicate Mirrors(view: View, sys: System) reads view {
    view.records == sys.records && view.watermark == sys.watermark
  }

  /** The view's own code handles the next delivery exactly as the step says, and never faults on
      what the store's writers commit. */
  method HandleNext(view: View, sys: System) returns (next: System)
    requires view.Valid() && Invariant(sys) && Mirrors(view, sys) && sys.inflight != []
    modifies view
    ensures view.Valid() && view.fatal == old(view.fatal)
    ensures next == AfterHandling(sys) && Mirrors(view, next)
  {
    var d := sys.inflight[0];
    if d.subject.RecordSubject? {
      NoNewerThanHead(sys.log, d.data.rec);
      CommittedIsAdmissible(sys, d.data.rec);
    }
    view.ApplyMessage(d.subject, d.seqno, d.data);
    next := AfterHandling(sys);
  }

  /** What a caught-up view owes a query whose tip was captured at start. */
  ghost predicate FreshSince(start: System, end: System) {
    var st := Replay(end.log);
    forall id :: Head(st, id).Some? && LastSeq(st, RecordSubject(id)) <= Replay(start.log).tip ==> Held(st, end.records, id)
  }

  datatype QueryOutcome = Ready | ViewFault(fault: Fault) | StoreClosed | GaveUp

  /** What a waiting query lives through: a step of the system, the end of the view's goroutine, or the
      end of its own context, which is also how the list ends. */
  datatype Event = Happens(step: Step) | GoroutineEnds | ContextEnds

  /** The system after the first n events. */
  function Lived(start: System, events: seq<Event>, n: nat): System
    requires n <= |events|
  {
    if n == 0 then start
    else
      var before := Lived(start, events, n - 1);
      if events[n - 1].Happens? then Next(before, events[n - 1].step) else before
  }

  /** The view's fault after the first n events: the first there was. */
  function FaultAt(fault: Option<Fault>, events: seq<Event>, n: nat): Option<Fault>
    requires n <= |events|
  {
    if fault.Some? then fault
    else if exists k :: 0 <= k < n && events[k] == Happens(Fail) then Some(BadConfig)
    else None
  }

  /** Captures the tip, then waits until the view has passed it, while everything else goes on. The
      wait ends after `turns` events. */
  method AwaitTip(view: View, start: System, events: seq<Event>) returns (end: System, outcome: QueryOutcome, turns: nat)
    requires view.Valid() && Invariant(start) && Mirrors(view, start)
    modifies view
    ensures view.Valid() && Invariant(end) && Mirrors(view, end) && start.log <= end.log
    ensures turns <= |events| && end == Lived(start, events, turns)
    ensures forall j :: 0 <= j < turns ==> events[j].Happens?
    // A context that has ended before the wait begins ends it there.
    ensures events != [] && events[0].ContextEnds? ==> outcome == GaveUp && turns == 0
    // Otherwise the answer is the first one there is: as long as the query waited, the view had neither
    // a fault nor passed the tip, and where it stopped, a fault comes first, then readiness.
    ensures forall j :: 0 <= j < turns ==>
              FaultAt(old(view.fatal), events, j).None? && Lived(start, events, j).watermark < Replay(start.log).tip
    ensures view.fatal == FaultAt(old(view.fatal), events, turns)
    ensures !(events != [] && events[0].ContextEnds?) ==>
              && (outcome.ViewFault? <==> view.fatal.Some?)
              && (outcome.ViewFault? ==> view.fatal == Some(outcome.fault))
              && (outcome.Ready? <==> view.fatal.None? && Replay(start.log).tip <= view.watermark)
              && (outcome.StoreClosed? ==> turns < |events| && events[turns].GoroutineEnds?)
              && (outcome.GaveUp? ==> turns == |events| || events[turns].ContextEnds?)
    ensures outcome.Ready? ==> FreshSince(start, end)
  {
    hide Invariant, LegalEntry, LegalLog, Sendable, Replay, Next, Lived, FaultAt, FreshSince, Indexed, Listing, WellKeyed;
    var tip := Replay(start.log).tip;
    end, turns := start, 0;
    LivedNothing(start, events, view.fatal);
    if events != [] && events[0].ContextEnds? { return end, GaveUp, 0; }
    while true
      invariant view.Valid() && Invariant(end) && Mirrors(view, end) && start.log <= end.log
      invariant turns <= |events| && end == Lived(start, events, turns)
      invariant forall j :: 0 <= j < turns ==> events[j].Happens?
      invariant forall j :: 0 <= j < turns ==> FaultAt(old(view.fatal), events, j).None? && Lived(start, events, j).watermark < tip
      invariant view.fatal == FaultAt(old(view.fatal), events, turns)
      decreases |events| - turns
    {
      if view.fatal.Some? { return end, ViewFault(view.fatal.value), turns; }
      if tip <= view.watermark {
        CaughtUpIsFresh(start, end);
        return end, Ready, turns;
      }
      if turns == |events| { return end, GaveUp, turns; }
      match events[turns] {
        case GoroutineEnds => return end, StoreClosed, turns;
        case ContextEnds => return end, GaveUp, turns;
        case Happens(step) =>
          end := Live(view, end, step);
          LivedOneMore(start, events, turns, old(view.fatal));
          turns := turns + 1;
      }
    }
  }

  lemma LivedNothing(start: System, events: seq<Event>, fault: Option<Fault>)
    ensures Lived(start, events, 0) == start && FaultAt(fault, events, 0) == fault
  {
  }

  lemma LivedOneMore(start: System, events: seq<Event>, n: nat, fault: Option<Fault>)
    requires n < |events| && events[n].Happens?
    ensures Lived(start, events, n + 1) == Next(Lived(start, events, n), events[n].step)
    ensures var was := FaultAt(fault, events, n);
            FaultAt(fault, events, n + 1) == if was.Some? then was else if events[n].step.Fail? then Some(BadConfig) else None
  {
  }

  /** One step of the system, the view's part of it taken by the view's own code. */
  method Live(view: View, sys: System, step: Step) returns (next: System)
    requires view.Valid() && Invariant(sys) && Mirrors(view, sys)
    modifies view
    ensures view.Valid() && next == Next(sys, step) && Invariant(next) && Mirrors(view, next) && sys.log <= next.log
    ensures view.fatal == if old(view.fatal).Some? then old(view.fatal) else if step.Fail? then Some(BadConfig) else None
  {
    hide Invariant, LegalEntry, LegalLog, Sendable, Replay;
    StepKeeps(sys, step);
    next := Next(sys, step);
    match step {
      case Handle =>
        if sys.inflight != [] { next := HandleNext(view, sys); }
      case Fail =>
        view.SetFatal(BadConfig);
      case _ =>
    }
  }

  lemma CaughtUpIsFresh(start: System, end: System)
    requires Invariant(end) && Replay(start.log).tip <= end.watermark
    ensures FreshSince(start, end)
  {
  }

  /** A record not rewritten since the tip was captured is in the ready view at its head. */
  lemma UnrewrittenRecordIsSeen(start: System, end: System, id: Identity)
    requires Invariant(start) && start.log <= end.log && FreshSince(start, end)
    requires Head(Replay(start.log), id).Some? && Head(Replay(end.log), id).Some?
    requires LastSeq(Replay(end.log), RecordSubject(id)) == LastSeq(Replay(start.log), RecordSubject(id))
    ensures Held(Replay(end.log), end.records, id)
  {
    LegalLogWellFormed(start.log);
  }

  /** With nothing committed in between, the view is the stream's heads, and so each listing is the
      heads, filtered and sorted. */
  lemma QuietViewIsTheStream(start: System, end: System, ix: Index, group: string, full: seq<Identity>)
    requires Invariant(start) && Invariant(end) && end.log == start.log && FreshSince(start, end)
    requires Listing(ix, group, end.records, full)
    ensures forall id :: id in end.records <==> Head(Replay(end.log), id).Some?
    ensures forall id :: id in full <==>
              Head(Replay(end.log), id).Some? && Belongs(ix, group, Head(Replay(end.log), id).value)
    ensures Sorted(ix, Rows(end.records, full))
    ensures forall i :: 0 <= i < |full| ==> Some(Rows(end.records, full)[i]) == Head(Replay(end.log), full[i])
  {
    hide Before, Belongs, Versions, LegalLog;
    var st := Replay(end.log);
    LegalLogWellFormed(end.log);
    forall id ensures id in end.records <==> Head(st, id).Some?
      ensures id in end.records ==> Head(st, id) == Some(end.records[id])
    {
      if id in end.records { NoNewerThanHead(end.log, end.records[id]); }
      if Head(st, id).Some? { assert LastSeq(st, RecordSubject(id)) <= st.tip; }
    }
    forall i | 0 <= i < |full| ensures Some(Rows(end.records, full)[i]) == Head(st, full[i]) { assert full[i] in full; }
  }

  // ---- why nothing stronger holds ------------------------------------------

  const A := OrderedRecord(Identity("s", "a"), "r", 1, 1, NotDue, UNRANKED, false, [])
  const B := OrderedRecord(Identity("s", "b"), "r", 1, 2, NotDue, UNRANKED, false, [])
  const CREATE_A := Entry(1, CreateBatch(A, 0))
  const CREATE_B := Entry(2, CreateBatch(B, 1))
  const UPDATE_A := Entry(3, [FencedMsg(RecordSubject(A.id), RecordPayload(A.(revision := 2)), 2)])

  const BEFORE_QUERY: seq<Step> := [Commit(CREATE_A), Commit(CREATE_B)]
  const DURING_QUERY: seq<Step> :=
    [Commit(UPDATE_A), Send(CounterSubject("s")), Handle, Send(RecordSubject(B.id)), Handle]

  const AFTER_A := StreamState(2, map[
    CounterSubject("s") := StoredMsg(1, OrderPayload(1)), RecordSubject(A.id) := StoredMsg(2, RecordPayload(A))])
  const AFTER_B := StreamState(4, map[
    CounterSubject("s") := StoredMsg(3, OrderPayload(2)), RecordSubject(A.id) := StoredMsg(2, RecordPayload(A)),
    RecordSubject(B.id) := StoredMsg(4, RecordPayload(B))])
  const AFTER_UPDATE := StreamState(5, map[
    CounterSubject("s") := StoredMsg(3, OrderPayload(2)), RecordSubject(A.id) := StoredMsg(5, RecordPayload(A.(revision := 2))),
    RecordSubject(B.id) := StoredMsg(4, RecordPayload(B))])

  lemma ExampleRecordsAreValid()
    ensures ValidRecord(A) && ValidRecord(B) && ValidRecord(A.(revision := 2))
  {
  }

  lemma CommitA()
    ensures LegalEntry(Replay([]), CREATE_A) && Replay([CREATE_A]) == AFTER_A
  {
  }

  lemma CommitB()
    ensures LegalEntry(Replay([CREATE_A]), CREATE_B) && Replay([CREATE_A, CREATE_B]) == AFTER_B
  {
    CommitA();
    ExampleRecordsAreValid();
    hide ValidRecord, Replay, ReviseShape;
    assert CreateShape(AFTER_A, CREATE_B.batch);
    StoreTwo(AFTER_A, CREATE_B.batch);
    ReplayPush([CREATE_A], CREATE_B);
    assert [CREATE_A] + [CREATE_B] == [CREATE_A, CREATE_B];
  }

  lemma CommitUpdate()
    ensures LegalEntry(Replay([CREATE_A, CREATE_B]), UPDATE_A) && Replay([CREATE_A, CREATE_B, UPDATE_A]) == AFTER_UPDATE
  {
    CommitB();
    ExampleRecordsAreValid();
    hide ValidRecord, Replay, CreateShape;
    assert ReviseShape(AFTER_B, UPDATE_A.batch);
    StoreOne(AFTER_B, UPDATE_A.batch);
    ReplayPush([CREATE_A, CREATE_B], UPDATE_A);
    assert [CREATE_A, CREATE_B] + [UPDATE_A] == [CREATE_A, CREATE_B, UPDATE_A];
  }

  lemma RunOne(sys: System, steps: seq<Step>, next: System)
    requires steps != [] && next == Next(sys, steps[0])
    ensures Run(sys, steps) == Run(next, steps[1..])
    ensures |steps| == 1 ==> Run(sys, steps) == next
  {
  }

  /** The view can pass the captured tip and still lack, altogether, a record that existed before the
      query began: its head was superseded while waiting to be delivered, and the replacement lies
      beyond the tip. */
  lemma CaughtUpViewMayMissARecord()
    ensures var start := Run(INITIAL, BEFORE_QUERY);
            var end := Run(start, DURING_QUERY);
            && Head(Replay(start.log), A.id).Some?
            && Replay(start.log).tip <= end.watermark
            && A.id !in end.records
  {
    CommitA();
    CommitB();
    CommitUpdate();
    hide Replay, LegalEntry, StoreAll, Run;
    var s1 := INITIAL.(log := [CREATE_A]);
    RunOne(INITIAL, BEFORE_QUERY, s1);
    var start := INITIAL.(log := [CREATE_A, CREATE_B]);
    RunOne(s1, BEFORE_QUERY[1..], start);
    assert Run(INITIAL, BEFORE_QUERY) == start;

    var s3 := INITIAL.(log := [CREATE_A, CREATE_B, UPDATE_A]);
    RunOne(start, DURING_QUERY, s3);
    var s4 := s3.(inflight := [Delivery(CounterSubject("s"), 3, OrderPayload(2))], sent := 3);
    RunOne(s3, DURING_QUERY[1..], s4);
    var s5 := s3.(sent := 3, handled := 3, watermark := 3);
    RunOne(s4, DURING_QUERY[1..][1..], s5);
    var s6 := s5.(inflight := [Delivery(RecordSubject(B.id), 4, RecordPayload(B))], sent := 4);
    RunOne(s5, DURING_QUERY[1..][1..][1..], s6);
    var s7 := s5.(sent := 4, handled := 4, watermark := 4, records := map[B.id := B]);
    RunOne(s6, DURING_QUERY[1..][1..][1..][1..], s7);
    assert Run(start, DURING_QUERY) == s7;
  }
}
