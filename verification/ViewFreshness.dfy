/** Exactly how fresh a caught-up view is. What it holds never goes back, what it holds is
    decided by its watermark, and whether a query can see a record older than at its start
    is decided when the tip is captured. */
module ViewFreshness {
  import opened Storage
  import opened OrderedStream
  import opened OrderedStore
  import opened OrderedView
  import opened ViewAgreement
  import opened ViewProgress

  // ---- what is held never goes back ----------------------------------------

  /** The records hold id at least at the given revision. */
  predicate AtLeast(records: Records, id: Identity, revision: int) {
    id in records && revision <= records[id].revision
  }

  lemma {:induction false} NeverGoesBack(sys: System, steps: seq<Step>, id: Identity, revision: int)
    requires AtLeast(sys.records, id, revision)
    ensures AtLeast(Run(sys, steps).records, id, revision)
    decreases |steps|
  {
    hide Replay, LegalEntry, Sendable;
    if steps != [] { NeverGoesBack(Next(sys, steps[0]), steps[1..], id, revision); }
  }

  lemma {:induction false} LogGrows(sys: System, steps: seq<Step>)
    requires Invariant(sys)
    ensures Invariant(Run(sys, steps)) && sys.log <= Run(sys, steps).log
    decreases |steps|
  {
    hide Replay, LegalEntry, Sendable, Invariant;
    if steps != [] {
      StepKeeps(sys, steps[0]);
      LogGrows(Next(sys, steps[0]), steps[1..]);
    }
  }

  // ---- the watermark decides what is held ----------------------------------

  /** A held head was reached, and a delivery that still carries the head carries its sequence. */
  ghost predicate Exact(sys: System) {
    var st := Replay(sys.log);
    && (forall id :: Held(st, sys.records, id) ==> LastSeq(st, RecordSubject(id)) <= sys.watermark)
    && (forall i :: 0 <= i < |sys.inflight| ==> CarriesOwnSeq(st, sys.inflight[i]))
  }

  ghost predicate CarriesOwnSeq(st: StreamState, d: Delivery) {
    d.subject.RecordSubject? && d.data.RecordPayload? && Head(st, d.subject.id) == Some(d.data.rec)
    ==> d.seqno == LastSeq(st, d.subject)
  }

  /** A commit either leaves an identity's head and sequence alone, or makes every committed version old. */
  lemma CommitMovesOn(log: seq<Entry>, e: Entry, id: Identity)
    requires LegalLog(log) && LegalEntry(Replay(log), e)
    ensures var st, next := Replay(log), Replay(log + [e]);
            || (Head(next, id) == Head(st, id) && LastSeq(next, RecordSubject(id)) == LastSeq(st, RecordSubject(id)))
            || (Head(next, id).Some? && forall rec: OrderedRecord :: rec.id == id && WasCommitted(log, rec) ==> Head(next, id) != Some(rec))
  {
    hide LegalEntry, VersionIn;
    var later := log + [e];
    ReplayPush(log, e);
    HistoryIsChain(log, id);
    HistoryIsChain(later, id);
    VersionsGrow(log, later, id);
    if |Versions(later, id)| <= |Versions(log, id)| { SeqMovesWithVersions(log, later, id); }
  }

  lemma CommitKeepsExact(sys: System, e: Entry)
    requires Invariant(sys) && Exact(sys) && LegalEntry(Replay(sys.log), e)
    ensures Exact(Next(sys, Commit(e)))
  {
    hide Replay, LegalEntry, LegalLog, WasCommitted, Versions, Agrees, Covered, Head, LastSeq;
    var next := Next(sys, Commit(e));
    forall id | Held(Replay(next.log), next.records, id) ensures LastSeq(Replay(next.log), RecordSubject(id)) <= next.watermark {
      CommitMovesOn(sys.log, e, id);
    }
    forall i | 0 <= i < |next.inflight| ensures CarriesOwnSeq(Replay(next.log), next.inflight[i]) {
      assert CarriesOwnSeq(Replay(sys.log), sys.inflight[i]);
      if sys.inflight[i].subject.RecordSubject? { CommitMovesOn(sys.log, e, sys.inflight[i].subject.id); }
    }
  }

  lemma HandleKeepsExact(sys: System)
    requires Invariant(sys) && Exact(sys) && sys.inflight != []
    ensures Exact(AfterHandling(sys))
  {
    hide Replay, LegalLog, WasCommitted, Versions, Agrees, Covered, Head, LastSeq;
    var next, st, d := AfterHandling(sys), Replay(sys.log), sys.inflight[0];
    forall i | 0 <= i < |next.inflight| ensures CarriesOwnSeq(st, next.inflight[i]) { assert CarriesOwnSeq(st, sys.inflight[i + 1]); }
    forall id | Held(st, next.records, id) ensures LastSeq(st, RecordSubject(id)) <= next.watermark {
      if !Held(st, sys.records, id) { assert CarriesOwnSeq(st, d); }
    }
  }

  lemma StepKeepsExact(sys: System, step: Step)
    requires Invariant(sys) && Exact(sys)
    ensures Exact(Next(sys, step))
  {
    hide Replay, LegalEntry, Invariant, Head;
    match step
    case Commit(e) => if LegalEntry(Replay(sys.log), e) { CommitKeepsExact(sys, e); }
    case Handle => if sys.inflight != [] { HandleKeepsExact(sys); }
    case _ =>
  }

  ghost predicate Reachable(sys: System) { exists steps :: sys == Run(INITIAL, steps) }

  lemma {:induction false} RunKeepsExact(sys: System, steps: seq<Step>)
    requires Invariant(sys) && Exact(sys)
    ensures Invariant(Run(sys, steps)) && Exact(Run(sys, steps))
    decreases |steps|
  {
    hide Invariant, Exact, Next;
    if steps != [] {
      StepKeeps(sys, steps[0]);
      StepKeepsExact(sys, steps[0]);
      RunKeepsExact(Next(sys, steps[0]), steps[1..]);
    }
  }

  lemma ReachableIsExact(sys: System)
    requires Reachable(sys)
    ensures Invariant(sys) && Exact(sys)
  {
    var steps :| sys == Run(INITIAL, steps);
    InitialInvariant();
    RunKeepsExact(INITIAL, steps);
  }

  /** In every reachable state a live head is in the view if and only if the watermark has reached it. */
  lemma HeldIffReached(sys: System, id: Identity)
    requires Reachable(sys) && Head(Replay(sys.log), id).Some?
    ensures Held(Replay(sys.log), sys.records, id) <==> LastSeq(Replay(sys.log), RecordSubject(id)) <= sys.watermark
  {
    ReachableIsExact(sys);
  }

  // ---- when a query can see less than there was at its start ---------------

  /** The view has passed the tip captured at start, yet shows h's identity older than h, or not at all. */
  ghost predicate ReadyButOlder(start: System, end: System, h: OrderedRecord) {
    Replay(start.log).tip <= end.watermark && !AtLeast(end.records, h.id, h.revision)
  }

  /** Nothing follows a tombstone or the last revision. */
  lemma LastVersionStays(log: seq<Entry>, later: seq<Entry>, id: Identity)
    requires LegalLog(later) && log <= later && Head(Replay(log), id).Some?
    requires Head(Replay(log), id).value.deleted || Head(Replay(log), id).value.revision == MAX_UINT64
    ensures Head(Replay(later), id) == Head(Replay(log), id)
    ensures LastSeq(Replay(later), RecordSubject(id)) == LastSeq(Replay(log), RecordSubject(id))
  {
    hide Replay, LegalLog, Versions;
    LegalPrefix(log, later);
    HistoryIsChain(log, id);
    HistoryIsChain(later, id);
    VersionsGrow(log, later, id);
    var n := |Versions(log, id)|;
    assert n < |Versions(later, id)| ==> Succeeds(Versions(later, id)[n - 1], Versions(later, id)[n]);
    SeqMovesWithVersions(log, later, id);
  }

  lemma OlderOnlyIf(start: System, steps: seq<Step>, h: OrderedRecord)
    requires Invariant(start) && Head(Replay(start.log), h.id) == Some(h)
    requires ReadyButOlder(start, Run(start, steps), h)
    ensures !Held(Replay(start.log), start.records, h.id) && !h.deleted && h.revision < MAX_UINT64
  {
    hide Replay, LegalLog, Covered, InflightOk, OnlyCommitted;
    var end := Run(start, steps);
    LogGrows(start, steps);
    if Held(Replay(start.log), start.records, h.id) { NeverGoesBack(start, steps, h.id, h.revision); }
    if h.deleted || h.revision == MAX_UINT64 {
      LastVersionStays(start.log, end.log, h.id);
      LegalLogWellFormed(start.log);
    }
  }

  function ScopeOf(s: Subject): string {
    match s case CounterSubject(scope) => scope case RecordSubject(id) => id.orderingScope
  }

  lemma {:induction false} LongerThanAll(subjects: set<Subject>) returns (n: nat)
    ensures 0 < n && forall s :: s in subjects ==> |ScopeOf(s)| < n
    decreases |subjects|
  {
    if subjects == {} { return 1; }
    var s :| s in subjects;
    var m := LongerThanAll(subjects - {s});
    n := if |ScopeOf(s)| < m then m else |ScopeOf(s)| + 1;
    assert subjects == (subjects - {s}) + {s};
  }

  /** Somebody can always create a record in a scope nobody has used. */
  lemma FreshCreate(log: seq<Entry>) returns (rec: OrderedRecord)
    requires LegalLog(log)
    ensures forall s :: s in Replay(log).msgs ==> ScopeOf(s) != rec.id.orderingScope
    ensures LegalEntry(Replay(log), Entry(0, CreateBatch(rec, 0)))
  {
    hide Replay, LegalLog, ReviseShape;
    var st := Replay(log);
    var n := LongerThanAll(st.msgs.Keys);
    var scope := seq(n, i => 'a');
    assert |scope| == n && forall i :: 0 <= i < n ==> scope[i] == 'a';
    assert ValidName(scope) && ValidName("a") && ValidStableKey("a");
    rec := OrderedRecord(Identity(scope, "a"), "a", 1, 1, NotDue, UNRANKED, false, []);
    assert CounterSubject(scope) !in st.msgs && RecordSubject(rec.id) !in st.msgs;
    assert CreateShape(st, CreateBatch(rec, 0));
  }

  /** A further version of the record, with nothing else changed. */
  function NextVersion(h: OrderedRecord): OrderedRecord
    requires h.revision < MAX_UINT64
  {
    h.(revision := h.revision + 1)
  }

  /** Two commits after which a message beyond the old tip is live, and h's identity lies beyond it. */
  lemma OvertakenHead(sys: System, h: OrderedRecord) returns (steps: seq<Step>, counter: Subject)
    requires Invariant(sys) && Head(Replay(sys.log), h.id) == Some(h) && !h.deleted && h.revision < MAX_UINT64
    ensures var end := Run(sys, steps);
            var st := Replay(end.log);
            && Invariant(end) && end.records == sys.records
            && counter in st.msgs && st.msgs[counter].seqno == Replay(sys.log).tip + 1
            && LastSeq(st, RecordSubject(h.id)) > st.msgs[counter].seqno
            && end.inflight == [] && end.sent == end.handled == 0
  {
    hide Replay, LegalLog, LegalEntry, Invariant, ValidRecord;
    assert LegalLog(sys.log) && Replay(sys.log).tip >= 0 by { assert Invariant(sys); InvariantLegal(sys); }
    var rec := FreshCreate(sys.log);
    var e1 := Entry(0, CreateBatch(rec, 0));
    counter := CounterSubject(rec.id.orderingScope);
    var sys1 := Next(sys, Commit(e1));
    StepKeeps(sys, Commit(e1));
    CreateLands(sys.log, rec, h.id);
    InvariantLegal(sys1);
    var seqno := LastSeq(Replay(sys1.log), RecordSubject(h.id));
    var e2 := Entry(0, RevisionBatch(NextVersion(h), seqno));
    RevisionLands(sys1.log, h, counter);
    var sys2 := Next(sys1, Commit(e2));
    StepKeeps(sys1, Commit(e2));
    var sys3 := Next(sys2, Attach);
    StepKeeps(sys2, Attach);
    steps := [Commit(e1), Commit(e2), Attach];
    assert steps[1..][0] == Commit(e2) && steps[1..][1..][0] == Attach && steps[1..][1..][1..] == [];
    assert Run(sys, steps) == Run(sys1, steps[1..]) == Run(sys2, steps[1..][1..]) == Run(sys3, []);
  }

  lemma InvariantLegal(sys: System)
    requires Invariant(sys)
    ensures LegalLog(sys.log)
  {
  }

  lemma CreateLands(log: seq<Entry>, rec: OrderedRecord, id: Identity)
    requires LegalEntry(Replay(log), Entry(0, CreateBatch(rec, 0)))
    requires rec.id.orderingScope != id.orderingScope && RecordSubject(id) in Replay(log).msgs
    ensures var st, next := Replay(log), Replay(log + [Entry(0, CreateBatch(rec, 0))]);
            var counter := CounterSubject(rec.id.orderingScope);
            && Head(next, id) == Head(st, id) && next.tip == st.tip + 2
            && counter in next.msgs && next.msgs[counter].seqno == st.tip + 1
  {
    ReplayPush(log, Entry(0, CreateBatch(rec, 0)));
    StoreTwo(Replay(log), CreateBatch(rec, 0));
  }

  lemma RevisionLands(log: seq<Entry>, h: OrderedRecord, counter: Subject)
    requires LegalLog(log) && Head(Replay(log), h.id) == Some(h) && !h.deleted && h.revision < MAX_UINT64
    requires counter.CounterSubject? && counter in Replay(log).msgs
    ensures var e := Entry(0, RevisionBatch(NextVersion(h), LastSeq(Replay(log), RecordSubject(h.id))));
            var next := Replay(log + [e]);
            && LegalEntry(Replay(log), e)
            && counter in next.msgs && next.msgs[counter] == Replay(log).msgs[counter]
            && LastSeq(next, RecordSubject(h.id)) == Replay(log).tip + 1
  {
    var batch := RevisionBatch(NextVersion(h), LastSeq(Replay(log), RecordSubject(h.id)));
    LegalLogWellFormed(log);
    ReplayPush(log, Entry(0, batch));
    StoreOne(Replay(log), batch);
    assert ReviseShape(Replay(log), batch);
  }

  lemma WatermarkIsHandled(sys: System)
    requires Invariant(sys)
    ensures sys.handled <= sys.watermark
  {
  }

  lemma SendsNoFurther(st: StreamState, sent: nat, s: Subject, target: Subject)
    requires Sendable(st, sent, s)
    requires target == s || (target in st.msgs && sent < st.msgs[target].seqno)
    ensures s in st.msgs && sent < st.msgs[s].seqno <= st.msgs[target].seqno
  {
  }

  lemma FirstDeliveryFits(sys: System)
    requires Invariant(sys) && sys.inflight != []
    ensures sys.inflight[0].subject.RecordSubject? ==>
              sys.inflight[0].data.RecordPayload? && sys.inflight[0].data.rec.id == sys.inflight[0].subject.id
  {
    hide LegalLog, Agrees, OnlyCommitted, Covered, Replay, WasCommitted;
  }

  /** Sending and handling one message leaves every other identity as it is. */
  lemma DeliverOne(sys: System, s: Subject, id: Identity) returns (next: System)
    requires Invariant(sys) && sys.inflight == [] && Sendable(Replay(sys.log), sys.sent, s) && s != RecordSubject(id)
    ensures next == Next(Next(sys, Send(s)), Handle) && Invariant(next)
    ensures next.inflight == [] && next.log == sys.log && next.handled == next.sent == Replay(sys.log).msgs[s].seqno
    ensures forall revision: int :: AtLeast(next.records, id, revision) <==> AtLeast(sys.records, id, revision)
  {
    hide Invariant, Replay, Sendable;
    var sent := Next(sys, Send(s));
    StepKeeps(sys, Send(s));
    StepKeeps(sent, Handle);
    FirstDeliveryFits(sent);
    SendsNoFurther(Replay(sys.log), sys.sent, s, s);
    assert sent.inflight == [HeadDelivery(Replay(sys.log), s)];
    next := Next(sent, Handle);
    assert next.inflight == [];
  }

  /** Delivering everything up to a live message leaves alone a record that lies beyond it. */
  lemma {:induction false} DeliverUpTo(sys: System, target: Subject, id: Identity) returns (steps: seq<Step>)
    requires Invariant(sys) && sys.inflight == [] && target in Replay(sys.log).msgs
    requires sys.handled == sys.sent <= Replay(sys.log).msgs[target].seqno < LastSeq(Replay(sys.log), RecordSubject(id))
    ensures var end := Run(sys, steps);
            && Replay(sys.log).msgs[target].seqno <= end.watermark
            && forall revision: int :: AtLeast(end.records, id, revision) <==> AtLeast(sys.records, id, revision)
    decreases Replay(sys.log).msgs[target].seqno - sys.sent
  {
    hide LegalLog, Invariant, Replay, Next, Sendable;
    var st := Replay(sys.log);
    WatermarkIsHandled(sys);
    if sys.sent == st.msgs[target].seqno { return []; }
    var s := NextToSend(st, sys.sent);
    SendsNoFurther(st, sys.sent, s, target);
    var next := DeliverOne(sys, s, id);
    var rest := DeliverUpTo(next, target, id);
    steps := [Send(s), Handle] + rest;
    assert steps[1..][0] == Handle && steps[1..][1..] == rest;
    assert Run(sys, steps) == Run(Next(sys, Send(s)), steps[1..]) == Run(next, rest);
  }

  lemma {:induction false} RunConcat(sys: System, first: seq<Step>, second: seq<Step>)
    ensures Run(sys, first + second) == Run(Run(sys, first), second)
    decreases |first|
  {
    if first == [] {
      assert first + second == second;
    } else {
      assert (first + second)[1..] == first[1..] + second;
      RunConcat(Next(sys, first[0]), first[1..], second);
    }
  }

  lemma OlderIf(start: System, h: OrderedRecord) returns (steps: seq<Step>)
    requires Invariant(start) && Head(Replay(start.log), h.id) == Some(h)
    requires !Held(Replay(start.log), start.records, h.id) && !h.deleted && h.revision < MAX_UINT64
    ensures ReadyButOlder(start, Run(start, steps), h)
  {
    hide Replay, LegalLog, Run;
    var first, counter := OvertakenHead(start, h);
    var middle := Run(start, first);
    var second := DeliverUpTo(middle, counter, h.id);
    RunConcat(start, first, second);
    steps := first + second;
    if h.id in start.records { NoNewerThanHead(start.log, start.records[h.id]); }
    assert !AtLeast(start.records, h.id, h.revision);
  }

  /** Main result on freshness. A query that captures the tip now can come to see a record older than
      it is now if and only if the view lacks the record's head at this moment and the head can still
      be superseded: it is not a tombstone and not the last revision. */
  lemma StaleReadIff(start: System, h: OrderedRecord)
    requires Reachable(start) && Head(Replay(start.log), h.id) == Some(h)
    ensures (exists steps :: ReadyButOlder(start, Run(start, steps), h)) <==>
            LastSeq(Replay(start.log), RecordSubject(h.id)) > start.watermark && !h.deleted && h.revision < MAX_UINT64
  {
    hide Invariant, Replay, Exact, Run;
    ReachableIsExact(start);
    HeldIffReached(start, h.id);
    if steps :| ReadyButOlder(start, Run(start, steps), h) {
      OlderOnlyIf(start, steps, h);
    }
    if !Held(Replay(start.log), start.records, h.id) && !h.deleted && h.revision < MAX_UINT64 {
      var steps := OlderIf(start, h);
    }
  }
}
