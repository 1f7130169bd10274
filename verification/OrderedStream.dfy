/** One namespace's stream as the server keeps it: a sequence counter and one live
    message per subject, written by all-or-nothing fenced batches. The second half
    states what the ordered store's writers put into it, and what therefore holds of
    every stream any number of them can build, in any order. */
module OrderedStream {
  import opened Storage

  datatype Subject = CounterSubject(scope: string) | RecordSubject(id: Identity)

  datatype Payload = OrderPayload(order: uint64) | RecordPayload(rec: OrderedRecord)

  datatype StoredMsg = StoredMsg(seqno: nat, data: Payload)

  datatype FencedMsg = FencedMsg(subject: Subject, data: Payload, expectLastSeq: nat)

  datatype StreamState = StreamState(tip: nat, msgs: map<Subject, StoredMsg>)

  const EMPTY := StreamState(0, map[])

  // ---- the server ----------------------------------------------------------

  /** Zero means that the subject has no message, which is also how a fence asks for that. */
  function LastSeq(st: StreamState, s: Subject): nat {
    if s in st.msgs then st.msgs[s].seqno else 0
  }

  predicate FencesHold(st: StreamState, batch: seq<FencedMsg>) {
    forall i :: 0 <= i < |batch| ==> LastSeq(st, batch[i].subject) == batch[i].expectLastSeq
  }

  function Store(st: StreamState, m: FencedMsg): StreamState {
    StreamState(st.tip + 1, st.msgs[m.subject := StoredMsg(st.tip + 1, m.data)])
  }

  function StoreAll(st: StreamState, batch: seq<FencedMsg>): StreamState
    decreases |batch|
  {
    if batch == [] then st else StoreAll(Store(st, batch[0]), batch[1..])
  }

  // ---- histories -----------------------------------------------------------

  /** One committed batch and the call that sent it. */
  datatype Entry = Entry(writer: nat, batch: seq<FencedMsg>)

  function Replay(log: seq<Entry>): StreamState {
    if log == [] then EMPTY else StoreAll(Replay(log[..|log| - 1]), log[|log| - 1].batch)
  }

  function CounterValue(st: StreamState, scope: string): nat {
    var s := CounterSubject(scope);
    if s in st.msgs && st.msgs[s].data.OrderPayload? then st.msgs[s].data.order else 0
  }

  function Head(st: StreamState, id: Identity): Option<OrderedRecord> {
    var s := RecordSubject(id);
    if s in st.msgs && st.msgs[s].data.RecordPayload? then Some(st.msgs[s].data.rec) else None
  }

  /** The batch Create sends: the scope's next order, and a first version on a free subject. */
  predicate CreateShape(st: StreamState, batch: seq<FencedMsg>) {
    && |batch| == 2
    && batch[1].data.RecordPayload?
    && batch[1].expectLastSeq == 0
    && var rec := batch[1].data.rec;
       && batch[0].subject == CounterSubject(rec.id.orderingScope)
       && batch[0].data == OrderPayload(rec.order)
       && batch[1].subject == RecordSubject(rec.id)
       && ValidRecord(rec) && rec.revision == 1 && !rec.deleted
       && rec.order == CounterValue(st, rec.id.orderingScope) + 1
  }

  /** What one committed version may be followed by. */
  predicate Succeeds(prev: OrderedRecord, next: OrderedRecord) {
    && !prev.deleted
    && ValidRecord(next)
    && next.id == prev.id && next.rankingScope == prev.rankingScope && next.order == prev.order
    && next.revision == prev.revision + 1
    && (next.deleted ==> next.value == prev.value)
  }

  /** The single message Update and Delete send. */
  predicate ReviseShape(st: StreamState, batch: seq<FencedMsg>) {
    && |batch| == 1
    && batch[0].data.RecordPayload?
    && var rec := batch[0].data.rec;
       && batch[0].subject == RecordSubject(rec.id)
       && Head(st, rec.id).Some?
       && Succeeds(Head(st, rec.id).value, rec)
  }

  predicate LegalEntry(st: StreamState, e: Entry) {
    FencesHold(st, e.batch) && (CreateShape(st, e.batch) || ReviseShape(st, e.batch))
  }

  /** A history in which every commit is one that some Create, Update or Delete makes. */
  ghost predicate LegalLog(log: seq<Entry>) {
    log == [] ||
    (LegalLog(log[..|log| - 1]) && LegalEntry(Replay(log[..|log| - 1]), log[|log| - 1]))
  }

  lemma ReplayPush(log: seq<Entry>, e: Entry)
    ensures Replay(log + [e]) == StoreAll(Replay(log), e.batch)
    ensures LegalLog(log) && LegalEntry(Replay(log), e) ==> LegalLog(log + [e])
  {
  }

  /** A legal batch names at most two subjects, so its effect can be written out. */
  lemma StoreTwo(st: StreamState, batch: seq<FencedMsg>)
    requires |batch| == 2
    ensures StoreAll(st, batch) ==
            StreamState(st.tip + 2, st.msgs[batch[0].subject := StoredMsg(st.tip + 1, batch[0].data)]
                                           [batch[1].subject := StoredMsg(st.tip + 2, batch[1].data)])
  {
    var one := Store(st, batch[0]);
    assert batch[1..][0] == batch[1] && batch[1..][1..] == [];
    assert StoreAll(one, batch[1..]) == StoreAll(Store(one, batch[1]), []);
  }

  lemma StoreOne(st: StreamState, batch: seq<FencedMsg>)
    requires |batch| == 1
    ensures StoreAll(st, batch) == StreamState(st.tip + 1, st.msgs[batch[0].subject := StoredMsg(st.tip + 1, batch[0].data)])
  {
  }

  // ---- well-formedness and fences ------------------------------------------

  /** Subjects hold payloads of their own family, at sequences up to the tip. */
  ghost predicate WellFormed(st: StreamState) {
    && (forall s :: s in st.msgs ==> 1 <= st.msgs[s].seqno <= st.tip)
    && (forall scope :: CounterSubject(scope) in st.msgs ==>
          st.msgs[CounterSubject(scope)].data.OrderPayload? && 0 < st.msgs[CounterSubject(scope)].data.order)
    && (forall id :: RecordSubject(id) in st.msgs ==>
          && st.msgs[RecordSubject(id)].data.RecordPayload?
          && st.msgs[RecordSubject(id)].data.rec.id == id
          && ValidRecord(st.msgs[RecordSubject(id)].data.rec))
  }

  /** What one legal commit does to the messages that were there. */
  ghost predicate Advances(st: StreamState, next: StreamState) {
    && st.tip < next.tip
    && st.msgs.Keys <= next.msgs.Keys
    && (forall s :: s in next.msgs ==> (s in st.msgs && next.msgs[s] == st.msgs[s]) || st.tip < next.msgs[s].seqno)
  }

  lemma LegalStepAdvances(st: StreamState, e: Entry, next: StreamState)
    requires WellFormed(st) && LegalEntry(st, e) && next == StoreAll(st, e.batch)
    ensures WellFormed(next) && Advances(st, next)
  {
    var rec := e.batch[|e.batch| - 1].data.rec;
    if CreateShape(st, e.batch) {
      StoreTwo(st, e.batch);
      assert next.msgs == st.msgs[CounterSubject(rec.id.orderingScope) := StoredMsg(st.tip + 1, OrderPayload(rec.order))]
                                 [RecordSubject(rec.id) := StoredMsg(st.tip + 2, RecordPayload(rec))];
    } else {
      StoreOne(st, e.batch);
      assert next.msgs == st.msgs[RecordSubject(rec.id) := StoredMsg(st.tip + 1, RecordPayload(rec))];
    }
  }

  lemma {:induction false} LegalLogWellFormed(log: seq<Entry>)
    requires LegalLog(log)
    ensures WellFormed(Replay(log))
  {
    if log != [] {
      LegalLogWellFormed(log[..|log| - 1]);
      LegalStepAdvances(Replay(log[..|log| - 1]), log[|log| - 1], Replay(log));
    }
  }

  lemma {:induction false} LegalPrefix(early: seq<Entry>, later: seq<Entry>)
    requires LegalLog(later) && early <= later
    ensures LegalLog(early)
  {
    if |early| < |later| { LegalPrefix(early, later[..|later| - 1]); } else { assert early == later; }
  }

  /** Any later message on a subject is either the one already there or lies beyond the old tip;
      a subject once written is never empty again. */
  lemma {:induction false} LaterIsSameOrBeyond(early: seq<Entry>, later: seq<Entry>, s: Subject)
    requires LegalLog(later) && early <= later
    requires s in Replay(later).msgs
    ensures (s in Replay(early).msgs && Replay(early).msgs[s] == Replay(later).msgs[s])
            || Replay(early).tip < Replay(later).msgs[s].seqno
    ensures Replay(early).tip <= Replay(later).tip
  {
    if |early| < |later| {
      var front := later[..|later| - 1];
      LegalLogWellFormed(front);
      LegalStepAdvances(Replay(front), later[|later| - 1], Replay(later));
      TipGrows(early, front);
      if s in Replay(front).msgs { LaterIsSameOrBeyond(early, front, s); }
    } else {
      assert early == later;
    }
  }

  lemma {:induction false} TipGrows(early: seq<Entry>, later: seq<Entry>)
    requires LegalLog(later) && early <= later
    ensures Replay(early).tip <= Replay(later).tip
    ensures Replay(early).msgs.Keys <= Replay(later).msgs.Keys
  {
    if |early| < |later| {
      var front := later[..|later| - 1];
      TipGrows(early, front);
      LegalLogWellFormed(front);
      LegalStepAdvances(Replay(front), later[|later| - 1], Replay(later));
    } else {
      assert early == later;
    }
  }

  /** Why a fence is enough: if the last sequence on a subject is still the one that was read,
      then so is the message, however much was committed in between. */
  lemma FenceStable(early: seq<Entry>, later: seq<Entry>, s: Subject)
    requires LegalLog(later) && early <= later
    requires LastSeq(Replay(later), s) == LastSeq(Replay(early), s)
    ensures (s in Replay(later).msgs) == (s in Replay(early).msgs)
    ensures s in Replay(early).msgs ==> Replay(later).msgs[s] == Replay(early).msgs[s]
  {
    LegalPrefix(early, later);
    LegalLogWellFormed(early);
    LegalLogWellFormed(later);
    TipGrows(early, later);
    if s in Replay(later).msgs { LaterIsSameOrBeyond(early, later, s); }
  }

  // ---- order allocation ----------------------------------------------------

  function ScopeSubjects(st: StreamState, scope: string): set<Subject> {
    set s | s in st.msgs && s.RecordSubject? && s.id.orderingScope == scope
  }

  ghost predicate OrderTaken(st: StreamState, scope: string, order: int) {
    exists id :: Head(st, id).Some? && id.orderingScope == scope && Head(st, id).value.order == order
  }

  ghost predicate OrdersBounded(st: StreamState) {
    forall id :: Head(st, id).Some? ==> 1 <= Head(st, id).value.order <= CounterValue(st, id.orderingScope)
  }

  ghost predicate OrdersDistinct(st: StreamState) {
    forall a, b ::
      Head(st, a).Some? && Head(st, b).Some? && a.orderingScope == b.orderingScope
      && Head(st, a).value.order == Head(st, b).value.order
      ==> a == b
  }

  ghost predicate OrdersDense(st: StreamState) {
    forall scope, k :: 1 <= k <= CounterValue(st, scope) ==> OrderTaken(st, scope, k)
  }

  ghost predicate CountersCount(st: StreamState) {
    forall scope :: |ScopeSubjects(st, scope)| == CounterValue(st, scope) <= MAX_UINT64
  }

  /** In each scope the counter counts the records, and the records carry 1..counter, once each. */
  ghost predicate OrdersExact(st: StreamState) {
    OrdersBounded(st) && OrdersDistinct(st) && OrdersDense(st) && CountersCount(st)
  }

  /** Create, seen through heads and counters only. */
  ghost predicate Allocates(st: StreamState, next: StreamState, rec: OrderedRecord) {
    && Head(st, rec.id) == None && Head(next, rec.id) == Some(rec)
    && (forall id :: id != rec.id ==> Head(next, id) == Head(st, id))
    && rec.order == CounterValue(st, rec.id.orderingScope) + 1 == CounterValue(next, rec.id.orderingScope)
    && (forall scope :: scope != rec.id.orderingScope ==> CounterValue(next, scope) == CounterValue(st, scope))
    && (forall scope :: ScopeSubjects(next, scope) ==
          ScopeSubjects(st, scope) + (if scope == rec.id.orderingScope then {RecordSubject(rec.id)} else {}))
    && RecordSubject(rec.id) !in ScopeSubjects(st, rec.id.orderingScope)
  }

  lemma CreateAllocates(st: StreamState, e: Entry, next: StreamState)
    requires WellFormed(st) && FencesHold(st, e.batch) && CreateShape(st, e.batch) && next == StoreAll(st, e.batch)
    ensures Allocates(st, next, e.batch[1].data.rec)
  {
    StoreTwo(st, e.batch);
    assert LastSeq(st, e.batch[1].subject) == 0;
  }

  lemma CreateKeepsDense(st: StreamState, next: StreamState, rec: OrderedRecord)
    requires OrdersDense(st) && Allocates(st, next, rec)
    ensures OrdersDense(next)
  {
    forall scope, k | 1 <= k <= CounterValue(next, scope) ensures OrderTaken(next, scope, k) {
      if scope == rec.id.orderingScope && k == rec.order {
        assert Head(next, rec.id).Some?;
      } else {
        assert OrderTaken(st, scope, k);
        var id :| Head(st, id).Some? && id.orderingScope == scope && Head(st, id).value.order == k;
        assert Head(next, id) == Head(st, id);
      }
    }
  }

  lemma CreateKeepsCount(st: StreamState, next: StreamState, rec: OrderedRecord)
    requires CountersCount(st) && Allocates(st, next, rec)
    ensures CountersCount(next)
  {
  }

  lemma CreateKeepsBoundedDistinct(st: StreamState, next: StreamState, rec: OrderedRecord)
    requires OrdersBounded(st) && OrdersDistinct(st) && Allocates(st, next, rec)
    ensures OrdersBounded(next) && OrdersDistinct(next)
  {
  }

  /** Update and Delete, seen the same way. */
  ghost predicate KeepsOrders(st: StreamState, next: StreamState) {
    && (forall id :: Head(next, id).Some? == Head(st, id).Some?)
    && (forall id :: Head(st, id).Some? ==> Head(next, id).value.order == Head(st, id).value.order)
    && (forall scope :: CounterValue(next, scope) == CounterValue(st, scope))
    && (forall scope :: ScopeSubjects(next, scope) == ScopeSubjects(st, scope))
  }

  lemma ReviseKeepsOrders(st: StreamState, e: Entry, next: StreamState)
    requires WellFormed(st) && ReviseShape(st, e.batch) && next == StoreAll(st, e.batch)
    ensures KeepsOrders(st, next)
  {
  }

  lemma ReviseKeepsOrdersExact(st: StreamState, next: StreamState)
    requires OrdersExact(st) && KeepsOrders(st, next)
    ensures OrdersExact(next)
  {
    forall scope, k | 1 <= k <= CounterValue(next, scope) ensures OrderTaken(next, scope, k) {
      assert OrderTaken(st, scope, k);
      var id :| Head(st, id).Some? && id.orderingScope == scope && Head(st, id).value.order == k;
      assert Head(next, id).Some?;
    }
    forall scope ensures |ScopeSubjects(next, scope)| == CounterValue(next, scope) <= MAX_UINT64 {
      assert |ScopeSubjects(st, scope)| == CounterValue(st, scope);
    }
  }

  /** Main result on allocation: whatever writers do, in whatever interleaving, every scope's
      counter equals its number of records and their orders are exactly 1..counter. */
  lemma {:induction false} OrdersStayExact(log: seq<Entry>)
    requires LegalLog(log)
    ensures OrdersExact(Replay(log))
  {
    if log == [] {
      forall scope ensures |ScopeSubjects(EMPTY, scope)| == 0 { assert ScopeSubjects(EMPTY, scope) == {}; }
    } else {
      var front, e := log[..|log| - 1], log[|log| - 1];
      OrdersStayExact(front);
      LegalLogWellFormed(front);
      if CreateShape(Replay(front), e.batch) {
        CreateAllocates(Replay(front), e, Replay(log));
        CreateKeepsBoundedDistinct(Replay(front), Replay(log), e.batch[1].data.rec);
        CreateKeepsDense(Replay(front), Replay(log), e.batch[1].data.rec);
        CreateKeepsCount(Replay(front), Replay(log), e.batch[1].data.rec);
      } else {
        ReviseKeepsOrders(Replay(front), e, Replay(log));
        ReviseKeepsOrdersExact(Replay(front), Replay(log));
      }
    }
  }

  // ---- one identity's history ----------------------------------------------

  /** The record a batch commits on id's subject, if any. */
  function VersionIn(batch: seq<FencedMsg>, id: Identity): seq<OrderedRecord> {
    if batch == [] then []
    else
      (if batch[0].subject == RecordSubject(id) && batch[0].data.RecordPayload? then [batch[0].data.rec] else [])
      + VersionIn(batch[1..], id)
  }

  /** Every version ever committed for id, oldest first. */
  function Versions(log: seq<Entry>, id: Identity): seq<OrderedRecord> {
    if log == [] then [] else Versions(log[..|log| - 1], id) + VersionIn(log[|log| - 1].batch, id)
  }

  ghost predicate VersionChain(vs: seq<OrderedRecord>, id: Identity) {
    && (forall i :: 0 <= i < |vs| ==> vs[i].revision == i + 1 && vs[i].id == id && ValidRecord(vs[i]))
    && (forall i :: 0 < i < |vs| ==> Succeeds(vs[i - 1], vs[i]))
    && (vs != [] ==> !vs[0].deleted)
    && (forall i :: 0 <= i < |vs| ==> vs[i].order == vs[0].order && vs[i].rankingScope == vs[0].rankingScope)
  }

  lemma VersionInStep(st: StreamState, e: Entry, id: Identity)
    requires WellFormed(st) && LegalEntry(st, e)
    ensures e.batch != [] && e.batch[|e.batch| - 1].data.RecordPayload?
    ensures var rec := e.batch[|e.batch| - 1].data.rec;
            VersionIn(e.batch, id) == (if rec.id == id then [rec] else [])
    ensures CreateShape(st, e.batch) ==> Head(st, e.batch[1].data.rec.id) == None
  {
    var batch := e.batch;
    assert LastSeq(st, batch[|batch| - 1].subject) == batch[|batch| - 1].expectLastSeq;
    if CreateShape(st, batch) {
      assert VersionIn(batch, id) == VersionIn(batch[1..], id);
      assert batch[1..][0] == batch[1] && batch[1..][1..] == [];
    } else {
      assert batch[1..] == [];
    }
  }

  lemma HeadAfter(st: StreamState, e: Entry, next: StreamState, id: Identity)
    requires WellFormed(st) && LegalEntry(st, e) && next == StoreAll(st, e.batch)
    ensures Head(next, id) == (if VersionIn(e.batch, id) == [] then Head(st, id) else Some(VersionIn(e.batch, id)[0]))
    ensures |VersionIn(e.batch, id)| <= 1
    ensures VersionIn(e.batch, id) != [] ==>
              var rec := VersionIn(e.batch, id)[0];
              && rec.id == id
              && (if Head(st, id).Some? then Succeeds(Head(st, id).value, rec)
                  else ValidRecord(rec) && rec.revision == 1 && !rec.deleted)
  {
    VersionInStep(st, e, id);
    if |e.batch| == 2 { StoreTwo(st, e.batch); } else { StoreOne(st, e.batch); }
  }

  lemma ChainPush(vs: seq<OrderedRecord>, rec: OrderedRecord, id: Identity)
    requires VersionChain(vs, id) && rec.id == id
    requires if vs == [] then ValidRecord(rec) && rec.revision == 1 && !rec.deleted else Succeeds(vs[|vs| - 1], rec)
    ensures VersionChain(vs + [rec], id)
  {
  }

  function Latest(vs: seq<OrderedRecord>): Option<OrderedRecord> {
    if vs == [] then None else Some(vs[|vs| - 1])
  }

  lemma ChainStep(vs: seq<OrderedRecord>, st: StreamState, e: Entry, next: StreamState, id: Identity)
    requires WellFormed(st) && LegalEntry(st, e) && next == StoreAll(st, e.batch)
    requires VersionChain(vs, id) && Head(st, id) == Latest(vs)
    ensures VersionChain(vs + VersionIn(e.batch, id), id)
    ensures Head(next, id) == Latest(vs + VersionIn(e.batch, id))
  {
    HeadAfter(st, e, next, id);
    var added := VersionIn(e.batch, id);
    if added == [] {
      assert vs + added == vs;
    } else {
      ChainPush(vs, added[0], id);
      assert added == [added[0]];
    }
  }

  /** Main result on histories: revisions are 1, 2, 3, ...; identity, ranking scope and order never
      change; a tombstone is last; and the live head is the last version. */
  lemma {:induction false} HistoryIsChain(log: seq<Entry>, id: Identity)
    requires LegalLog(log)
    ensures VersionChain(Versions(log, id), id)
    ensures Head(Replay(log), id) == Latest(Versions(log, id))
  {
    if log != [] {
      var front, e := log[..|log| - 1], log[|log| - 1];
      HistoryIsChain(front, id);
      LegalLogWellFormed(front);
      ChainStep(Versions(front, id), Replay(front), e, Replay(log), id);
    }
  }

  lemma TombstoneIsLast(log: seq<Entry>, id: Identity, i: nat)
    requires LegalLog(log) && i < |Versions(log, id)| && Versions(log, id)[i].deleted
    ensures i == |Versions(log, id)| - 1
    ensures !Versions(log, id)[i].rank.ranked && Versions(log, id)[i].due == NotDue
    ensures 0 < i && Versions(log, id)[i].value == Versions(log, id)[i - 1].value
  {
    HistoryIsChain(log, id);
    assert i + 1 < |Versions(log, id)| ==> Succeeds(Versions(log, id)[i], Versions(log, id)[i + 1]);
  }

  lemma {:induction false} VersionsGrow(early: seq<Entry>, later: seq<Entry>, id: Identity)
    requires early <= later
    ensures Versions(early, id) <= Versions(later, id)
  {
    if |early| < |later| { VersionsGrow(early, later[..|later| - 1], id); } else { assert early == later; }
  }

  /** A record subject's sequence moves only when a version is committed on it. */
  lemma {:induction false} SeqMovesWithVersions(early: seq<Entry>, later: seq<Entry>, id: Identity)
    requires LegalLog(later) && early <= later
    requires |Versions(later, id)| <= |Versions(early, id)|
    ensures LastSeq(Replay(later), RecordSubject(id)) == LastSeq(Replay(early), RecordSubject(id))
  {
    if |early| < |later| {
      var front, e := later[..|later| - 1], later[|later| - 1];
      VersionsGrow(early, front, id);
      SeqMovesWithVersions(early, front, id);
      LegalLogWellFormed(front);
      VersionInStep(Replay(front), e, id);
      if |e.batch| == 2 { StoreTwo(Replay(front), e.batch); } else { StoreOne(Replay(front), e.batch); }
    } else {
      assert early == later;
    }
  }

  lemma SeqStep(st: StreamState, e: Entry, next: StreamState, id: Identity)
    requires WellFormed(st) && LegalEntry(st, e) && next == StoreAll(st, e.batch)
    ensures LastSeq(st, RecordSubject(id)) <= LastSeq(next, RecordSubject(id))
    ensures VersionIn(e.batch, id) != [] ==> LastSeq(st, RecordSubject(id)) < LastSeq(next, RecordSubject(id))
  {
    hide ValidRecord;
    VersionInStep(st, e, id);
    if |e.batch| == 2 { StoreTwo(st, e.batch); } else { StoreOne(st, e.batch); }
  }

  /** And it does move then, for good. */
  lemma {:induction false} VersionsMoveSeq(early: seq<Entry>, later: seq<Entry>, id: Identity)
    requires LegalLog(later) && early <= later
    ensures LastSeq(Replay(early), RecordSubject(id)) <= LastSeq(Replay(later), RecordSubject(id))
    ensures |Versions(early, id)| < |Versions(later, id)| ==>
              LastSeq(Replay(early), RecordSubject(id)) < LastSeq(Replay(later), RecordSubject(id))
  {
    hide LegalEntry, LastSeq, StoreAll, WellFormed, VersionIn;
    if |early| < |later| {
      var front, e := later[..|later| - 1], later[|later| - 1];
      VersionsMoveSeq(early, front, id);
      LegalLogWellFormed(front);
      SeqStep(Replay(front), e, Replay(later), id);
    } else {
      assert early == later;
    }
  }
}
