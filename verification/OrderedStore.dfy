/** The mutating half of the ordered store, run against a server that other clients
    keep changing: before each of its steps any legal history may have been appended.
    A publish may lose its acknowledgement, having committed or not, and one that has
    not may still reach the server later. */
module OrderedStore {
  import opened Storage
  import opened OrderedStream

  const CREATE_ATTEMPTS := 64

  /** What becomes of one request: answered, unanswered (ambiguous), or ended by an error that
      proves nothing, such as a cancelled context or an unreadable acknowledgement. An unanswered or
      broken request may have reached the server, and may reach it yet. */
  datatype Fate = Deliver | LoseAck(reached: bool) | Break(reached: bool)

  /** Something that happens between two steps of a call: another client commits, or an unanswered
      request arrives after all. */
  datatype Move = Theirs(e: Entry) | Arrival(k: nat)

  /** One step of a call: what happens just before it, and its fate. */
  datatype Turn = Turn(moves: seq<Move>, fate: Fate)

  datatype Ack = Acked | PreconditionFailed | Unknown | Failed

  datatype Read = ReadFailed | Missing | Found(seqno: nat, data: Payload)

  ghost predicate Wrote(log: seq<Entry>, me: nat) {
    exists i :: 0 <= i < |log| && log[i].writer == me
  }

  /** A call that has committed nothing and left nothing under way. */
  ghost predicate Idle(log: seq<Entry>, pending: seq<Entry>, me: nat) {
    !Wrote(log, me) && forall p :: p in pending ==> p.writer != me
  }

  /** All that a call has committed or left under way is e. */
  ghost predicate Only(log: seq<Entry>, pending: seq<Entry>, me: nat, e: Entry) {
    && (forall i :: 0 <= i < |log| && log[i].writer == me ==> log[i] == e)
    && (forall p :: p in pending && p.writer == me ==> p == e)
  }

  /** Whatever the call left under way can no longer take effect. */
  ghost predicate Settled(log: seq<Entry>, pending: seq<Entry>, me: nat) {
    forall p, later :: p in pending && p.writer == me && LegalLog(later) && log <= later ==> !FencesHold(Replay(later), p.batch)
  }

  /** The history has grown, by others' commits and by requests that were under way. */
  ghost predicate Grew(log: seq<Entry>, pending: seq<Entry>, nextLog: seq<Entry>, nextPending: seq<Entry>, me: nat) {
    && log <= nextLog
    && (forall i :: |log| <= i < |nextLog| && nextLog[i].writer == me ==> nextLog[i] in pending)
    && (forall p :: p in nextPending ==> p in pending)
  }

  /** A request that is a legal commit whenever, from now on, its fences hold. */
  ghost predicate LegalWhenever(log: seq<Entry>, e: Entry) {
    forall later :: LegalLog(later) && log <= later && FencesHold(Replay(later), e.batch) ==> LegalEntry(Replay(later), e)
  }

  class OrderedSeam {
    var tip: nat
    var msgs: map<Subject, StoredMsg>
    var pending: seq<Entry>
    var turns: seq<Turn>
    /** How every request and wait so far went, how many publishes met a failed precondition, and how
        many waits were given up. */
    var fates: seq<Fate>
    var refused: nat
    var cancelled: nat
    ghost var log: seq<Entry>

    constructor (turns: seq<Turn>)
      ensures Valid() && log == [] && pending == []
    {
      tip, msgs, log, pending, fates, refused, cancelled := 0, map[], [], [], [], 0, 0;
      this.turns := turns;
    }

    function State(): StreamState reads this { StreamState(tip, msgs) }

    ghost predicate Valid() reads this {
      LegalLog(log) && Replay(log) == State() && forall p :: p in pending ==> LegalWhenever(log, p)
    }

    /** Nobody else is active and nothing goes wrong. */
    predicate Quiet() reads this { turns == [] }

    /** Since then every request was answered and no wait given up. */
    predicate AnsweredSince(since: nat) reads this {
      since <= |fates| && forall i :: since <= i < |fates| ==> fates[i].Deliver?
    }

    /** Lets the rest of the world run. What the script proposes that is not a legal commit of
        somebody else is not something they could have done, and is skipped. */
    method Interfere(me: nat) returns (fate: Fate)
      requires Valid()
      modifies this
      ensures Valid() && Grew(old(log), old(pending), log, pending, me)
      ensures fates == old(fates) + [fate] && refused == old(refused) && cancelled == old(cancelled)
      ensures old(Quiet()) ==> Quiet() && log == old(log) && pending == old(pending) && fate.Deliver?
    {
      hide LegalLog, Replay, StoreAll, LegalWhenever;
      fate := if turns == [] then Deliver else turns[0].fate;
      fates := fates + [fate];
      if turns == [] { return; }
      var turn := turns[0];
      turns := turns[1..];
      for i := 0 to |turn.moves|
        invariant Valid() && Grew(old(log), old(pending), log, pending, me)
        invariant fates == old(fates) + [fate] && refused == old(refused) && cancelled == old(cancelled)
      {
        match turn.moves[i]
        case Theirs(e) =>
          if e.writer != me && LegalEntry(State(), e) { Commit(e); }
        case Arrival(k) =>
          if k < |pending| { Arrive(k, me); }
      }
    }

    /** An unanswered request reaches the server, which checks its fences as of now. */
    method Arrive(k: nat, me: nat)
      requires Valid() && k < |pending|
      modifies this`tip, this`msgs, this`log, this`pending
      ensures Valid() && Grew(old(log), old(pending), log, pending, me)
    {
      hide LegalLog, Replay, LegalEntry, StoreAll;
      var e := pending[k];
      assert LegalWhenever(log, e);
      pending := pending[..k] + pending[k + 1..];
      if FencesHold(State(), e.batch) { Commit(e); }
    }

    method Commit(e: Entry)
      requires Valid() && LegalEntry(State(), e)
      modifies this`tip, this`msgs, this`log
      ensures Valid() && log == old(log) + [e] && State() == StoreAll(old(State()), e.batch)
    {
      ReplayPush(log, e);
      var next := StoreAll(State(), e.batch);
      forall p | p in pending ensures LegalWhenever(log + [e], p) { LegalStays(log, log + [e], p); }
      log := log + [e];
      tip, msgs := next.tip, next.msgs;
    }

    method LastMsgForSubject(me: nat, subject: Subject) returns (r: Read)
      requires Valid()
      modifies this
      ensures Valid() && Grew(old(log), old(pending), log, pending, me)
      ensures r.Missing? ==> subject !in msgs
      ensures r.Found? ==> subject in msgs && msgs[subject] == StoredMsg(r.seqno, r.data)
      ensures |fates| == |old(fates)| + 1 && old(fates) <= fates && refused == old(refused) && cancelled == old(cancelled) && (r.ReadFailed? <==> !fates[|old(fates)|].Deliver?)
      ensures old(Quiet()) ==> Quiet() && log == old(log) && pending == old(pending) && !r.ReadFailed?
    {
      var fate := Interfere(me);
      if !fate.Deliver? { return ReadFailed; }
      if subject !in msgs { return Missing; }
      r := Found(msgs[subject].seqno, msgs[subject].data);
    }

    /** The atomic fenced publish: all of the batch or none of it, at some moment between now and
        never. Only an answer says which. */
    method Publish(me: nat, batch: seq<FencedMsg>) returns (ack: Ack)
      requires Valid() && LegalWhenever(log, Entry(me, batch))
      modifies this
      ensures Valid() && Grew(old(log), old(pending) + [Entry(me, batch)], log, pending, me)
      ensures ack.Acked? ==> |old(log)| < |log| && log[|log| - 1] == Entry(me, batch)
      ensures ack.PreconditionFailed? ==> !FencesHold(State(), batch) && Grew(old(log), old(pending), log, pending, me)
      ensures |fates| == |old(fates)| + 1 && old(fates) <= fates
      ensures ack.Unknown? <==> fates[|old(fates)|].LoseAck?
      ensures ack.Failed? <==> fates[|old(fates)|].Break?
      ensures refused == old(refused) + (if ack.PreconditionFailed? then 1 else 0) && cancelled == old(cancelled)
      ensures old(Quiet()) ==>
                && Quiet() && (if FencesHold(old(State()), batch) then ack.Acked? else ack.PreconditionFailed?)
                && log == (if ack.Acked? then old(log) + [Entry(me, batch)] else old(log))
    {
      hide LegalLog, Replay, LegalEntry, StoreAll;
      var e := Entry(me, batch);
      ghost var before := log;
      var fate := Interfere(me);
      LegalStays(before, log, e);
      assert e in old(pending) + [e] && forall p :: p in old(pending) ==> p in old(pending) + [e];
      if !fate.Deliver? && !fate.reached {
        pending := pending + [e];
        return if fate.LoseAck? then Unknown else Failed;
      }
      var holds := FencesHold(State(), batch);
      if holds { Commit(e); }
      match fate
      case Deliver =>
        ack := if holds then Acked else PreconditionFailed;
        refused := refused + (if holds then 0 else 1);
      case LoseAck(_) => ack := Unknown;
      case Break(_) => ack := Failed;
    }

    /** A wait the caller may give up: the scope latch, or the backoff before a retry. */
    method Wait(me: nat) returns (gaveUp: bool)
      requires Valid()
      modifies this
      ensures Valid() && Grew(old(log), old(pending), log, pending, me)
      ensures |fates| == |old(fates)| + 1 && old(fates) <= fates && refused == old(refused) && cancelled == old(cancelled) + (if gaveUp then 1 else 0)
      ensures (gaveUp <==> !fates[|old(fates)|].Deliver?)
      ensures old(Quiet()) ==> Quiet() && log == old(log) && pending == old(pending) && !gaveUp
    {
      var fate := Interfere(me);
      gaveUp := !fate.Deliver?;
      cancelled := cancelled + (if gaveUp then 1 else 0);
    }
  }

  lemma LegalStays(log: seq<Entry>, next: seq<Entry>, e: Entry)
    requires log <= next && LegalWhenever(log, e)
    ensures LegalWhenever(next, e)
  {
  }

  datatype RecordRead = RecordReadFailed | NoRecord | HasRecord(rec: OrderedRecord, seqno: nat)

  method ReadRecord(seam: OrderedSeam, me: nat, id: Identity) returns (r: RecordRead)
    requires seam.Valid()
    modifies seam
    ensures seam.Valid() && Grew(old(seam.log), old(seam.pending), seam.log, seam.pending, me)
    ensures r.NoRecord? ==> Versions(seam.log, id) == []
    ensures r.HasRecord? ==> ReadOf(seam.log, id, r.rec, r.seqno)
    ensures |seam.fates| == |old(seam.fates)| + 1 && old(seam.fates) <= seam.fates && seam.refused == old(seam.refused) && seam.cancelled == old(seam.cancelled)
    ensures r.RecordReadFailed? <==> !seam.fates[|old(seam.fates)|].Deliver?
    ensures old(seam.Quiet()) ==>
              seam.Quiet() && seam.log == old(seam.log) && seam.pending == old(seam.pending) && !r.RecordReadFailed?
  {
    var msg := seam.LastMsgForSubject(me, RecordSubject(id));
    HistoryIsChain(seam.log, id);
    LegalLogWellFormed(seam.log);
    match msg
    case ReadFailed => r := RecordReadFailed;
    case Missing => r := NoRecord;
    case Found(seqno, data) =>
      // Nothing else ever reaches a record subject, so the decode cannot fail here.
      assert data.RecordPayload?;
      r := HasRecord(data.rec, seqno);
  }

  /** rec is the identity's current record, its last version, at sequence seqno. */
  ghost predicate ReadOf(log: seq<Entry>, id: Identity, rec: OrderedRecord, seqno: nat) {
    && Head(Replay(log), id) == Some(rec) && rec.id == id && ValidRecord(rec)
    && seqno == LastSeq(Replay(log), RecordSubject(id))
    && Latest(Versions(log, id)) == Some(rec) && rec.revision == |Versions(log, id)|
  }

  // ---- Create --------------------------------------------------------------

  datatype Request = Request(id: Identity, rankingScope: string, value: seq<byte>, rank: Rank, due: Due)

  predicate ValidRequest(req: Request) {
    ValidIdentity(req.id) && ValidName(req.rankingScope) && |req.value| <= MAX_ORDERED_VALUE_BYTES
  }

  function Candidate(req: Request, order: uint64): OrderedRecord {
    OrderedRecord(req.id, req.rankingScope, 1, order, req.due, req.rank, false, req.value)
  }

  function CreateBatch(rec: OrderedRecord, counterSeq: nat): seq<FencedMsg> {
    [FencedMsg(CounterSubject(rec.id.orderingScope), OrderPayload(rec.order), counterSeq),
     FencedMsg(RecordSubject(rec.id), RecordPayload(rec), 0)]
  }

  datatype CreateOutcome =
    | Stored(rec: OrderedRecord, created: bool)
    | CreateInvalid
    | CreateCancelled
    | OrderExhausted
    | Contention
    | CreateUnresolved
    | CreateFailed
  {
    /** The outcomes that tell the caller nothing was written, nor ever will be. */
    predicate Refusal() {
      CreateInvalid? || CreateCancelled? || OrderExhausted? || Contention?
    }
  }

  /** How Create reads the outcome of its publish, from the record read back where one is; None means
      try again. */
  function ClassifyCreate(ack: Ack, rec: OrderedRecord, readBack: RecordRead): Option<CreateOutcome> {
    match ack
    case Acked => Some(Stored(rec, true))
    case Failed => Some(CreateFailed)
    case PreconditionFailed =>
      (match readBack
       case RecordReadFailed => Some(CreateFailed)
       case NoRecord => None
       case HasRecord(winner, _) => Some(Stored(winner, false)))
    case Unknown =>
      (match readBack
       case RecordReadFailed => Some(CreateFailed)
       case NoRecord => Some(CreateUnresolved)
       case HasRecord(winner, _) => Some(Stored(winner, winner == rec)))
  }

  /** The record reported is a committed version of the identity; one reported as created is its
      first version and is exactly what was submitted. */
  ghost predicate ClaimsTruly(out: CreateOutcome, log: seq<Entry>, req: Request) {
    out.Stored? ==>
      && 1 <= out.rec.revision <= |Versions(log, req.id)|
      && Versions(log, req.id)[out.rec.revision - 1] == out.rec
      && (out.created ==> out.rec == Candidate(req, out.rec.order))
  }

  /** A refusal wrote nothing and leaves nothing under way. With a record in hand nothing of this call
      can land any more, and one it did write is claimed exactly when it is still the only version.
      An unresolved outcome had written nothing when the record was looked for, and may yet. */
  ghost predicate DisownsTruly(out: CreateOutcome, log: seq<Entry>, pending: seq<Entry>, me: nat, req: Request) {
    && (out.Refusal() ==> Idle(log, pending, me))
    && (out.Stored? && Wrote(log, me) ==> (out.created <==> |Versions(log, req.id)| == 1))
    && (out.Stored? ==> Settled(log, pending, me))
    && (out.CreateUnresolved? ==> !Wrote(log, me) && Versions(log, req.id) == [])
  }

  /** The call wrote, or claims, only an identity that did not exist when it began; all it ever sent
      that took effect or may take effect is one first version of it, as submitted. */
  ghost predicate WritesFirstOnly(out: CreateOutcome, start: seq<Entry>, log: seq<Entry>, pending: seq<Entry>, me: nat, req: Request) {
    && (out.Stored? && out.created ==> Versions(start, req.id) == [])
    && (Idle(log, pending, me) ||
        (Versions(start, req.id) == [] &&
         exists order: uint64, counterSeq: nat :: Only(log, pending, me, Entry(me, CreateBatch(Candidate(req, order), counterSeq)))))
  }

  ghost predicate CreateHonest(out: CreateOutcome, start: seq<Entry>, log: seq<Entry>, pending: seq<Entry>, me: nat, req: Request) {
    && ClaimsTruly(out, log, req)
    && DisownsTruly(out, log, pending, me, req)
    && WritesFirstOnly(out, start, log, pending, me, req)
  }

  /** A create batch may be sent on: wherever its fences hold it is a legal commit. */
  lemma CreateIsLegal(read: seq<Entry>, me: nat, rec: OrderedRecord, counterSeq: nat)
    requires LegalLog(read) && ValidRecord(rec) && rec.revision == 1 && !rec.deleted
    requires counterSeq == LastSeq(Replay(read), CounterSubject(rec.id.orderingScope))
    requires rec.order == CounterValue(Replay(read), rec.id.orderingScope) + 1
    ensures LegalWhenever(read, Entry(me, CreateBatch(rec, counterSeq)))
  {
    var counter, batch := CounterSubject(rec.id.orderingScope), CreateBatch(rec, counterSeq);
    forall later | LegalLog(later) && read <= later && FencesHold(Replay(later), batch)
      ensures LegalEntry(Replay(later), Entry(me, batch))
    {
      assert batch[0].subject == counter;
      FenceStable(read, later, counter);
    }
  }

  lemma CreateStartsHistory(front: seq<Entry>, me: nat, rec: OrderedRecord, counterSeq: nat)
    requires LegalLog(front) && LegalEntry(Replay(front), Entry(me, CreateBatch(rec, counterSeq)))
    ensures Versions(front, rec.id) == [] && VersionIn(CreateBatch(rec, counterSeq), rec.id) == [rec]
  {
    hide LegalLog, Replay, Versions;
    LegalLogWellFormed(front);
    VersionInStep(Replay(front), Entry(me, CreateBatch(rec, counterSeq)), rec.id);
    HistoryIsChain(front, rec.id);
  }

  /** Wherever a create batch stands in a history, it began its identity's history. */
  lemma CommittedCreateIsFirst(log: seq<Entry>, i: nat, me: nat, rec: OrderedRecord, counterSeq: nat)
    requires LegalLog(log) && i < |log| && log[i] == Entry(me, CreateBatch(rec, counterSeq))
    ensures Versions(log, rec.id) != [] && Versions(log, rec.id)[0] == rec
    ensures i == |log| - 1 ==> Versions(log, rec.id) == [rec]
  {
    hide VersionIn, LegalEntry, CreateBatch, Replay;
    var upTo := log[..i + 1];
    LegalPrefix(upTo, log);
    assert upTo[..|upTo| - 1] == log[..i] && upTo[|upTo| - 1] == log[i];
    CreateStartsHistory(log[..i], me, rec, counterSeq);
    assert Versions(upTo, rec.id) == [] + [rec];
    VersionsGrow(upTo, log, rec.id);
    assert i == |log| - 1 ==> upTo == log;
  }

  /** Once the identity exists, a create batch for it can never land. */
  lemma ExistingBlocksCreate(log: seq<Entry>, pending: seq<Entry>, me: nat, rec: OrderedRecord, counterSeq: nat)
    requires LegalLog(log) && Versions(log, rec.id) != []
    requires Only(log, pending, me, Entry(me, CreateBatch(rec, counterSeq)))
    ensures Settled(log, pending, me)
  {
    var batch := CreateBatch(rec, counterSeq);
    forall later | LegalLog(later) && log <= later ensures !FencesHold(Replay(later), batch) {
      VersionsGrow(log, later, rec.id);
      HistoryIsChain(later, rec.id);
      LegalLogWellFormed(later);
      assert batch[1].subject == RecordSubject(rec.id);
    }
  }

  /** Every classification of a publish that may have landed, may land, or failed, is honest. */
  lemma HonestAfterPublish(ack: Ack, readBack: RecordRead, start: seq<Entry>, log: seq<Entry>, pending: seq<Entry>,
                           me: nat, req: Request, rec: OrderedRecord, counterSeq: nat)
    requires LegalLog(log) && Versions(start, req.id) == [] && rec == Candidate(req, rec.order)
    requires Only(log, pending, me, Entry(me, CreateBatch(rec, counterSeq)))
    requires ack.Acked? ==> log != [] && log[|log| - 1] == Entry(me, CreateBatch(rec, counterSeq))
    requires ack.PreconditionFailed? ==> Idle(log, pending, me)
    requires ack.PreconditionFailed? || ack.Unknown? ==>
               match readBack
               case RecordReadFailed => true
               case NoRecord => Versions(log, req.id) == []
               case HasRecord(winner, seqno) => ReadOf(log, req.id, winner, seqno)
    ensures var out := ClassifyCreate(ack, rec, readBack);
            if out.Some? then CreateHonest(out.value, start, log, pending, me, req) else Idle(log, pending, me)
  {
    hide LegalLog, Versions, CreateBatch, Settled, Replay, Head;
    if Wrote(log, me) {
      var i :| 0 <= i < |log| && log[i].writer == me;
      CommittedCreateIsFirst(log, i, me, rec, counterSeq);
    }
    if ack.Acked? { CommittedCreateIsFirst(log, |log| - 1, me, rec, counterSeq); }
    if Versions(log, req.id) != [] { ExistingBlocksCreate(log, pending, me, rec, counterSeq); }
  }

  /** If an unresolved or failed Create lands after it returned, it lands as what was submitted, as the
      identity's first version. */
  lemma LateCreateIsFirst(out: CreateOutcome, start: seq<Entry>, log: seq<Entry>, pending: seq<Entry>,
                          later: seq<Entry>, laterPending: seq<Entry>, me: nat, req: Request)
    requires CreateHonest(out, start, log, pending, me, req)
    requires LegalLog(later) && Grew(log, pending, later, laterPending, me) && Wrote(later, me)
    ensures var vs := Versions(later, req.id);
            && vs != [] && Versions(start, req.id) == [] && !out.Refusal()
            && vs[0].id == req.id && vs[0].rankingScope == req.rankingScope && vs[0].value == req.value
            && vs[0].rank == req.rank && vs[0].due == req.due && vs[0].revision == 1 && !vs[0].deleted
  {
    hide LegalLog, Versions, CreateBatch, Settled, Replay;
    var order: uint64, counterSeq: nat :| Only(log, pending, me, Entry(me, CreateBatch(Candidate(req, order), counterSeq)));
    var i :| 0 <= i < |later| && later[i].writer == me;
    assert i < |log| ==> later[i] == log[i];
    CommittedCreateIsFirst(later, i, me, Candidate(req, order), counterSeq);
  }

  lemma CounterPayload(log: seq<Entry>, scope: string)
    requires LegalLog(log)
    ensures CounterSubject(scope) in Replay(log).msgs ==> Replay(log).msgs[CounterSubject(scope)].data.OrderPayload?
  {
    LegalLogWellFormed(log);
  }

  lemma UndisturbedFencesHold(log: seq<Entry>, rec: OrderedRecord)
    requires LegalLog(log)
    ensures Versions(log, rec.id) == [] ==>
              FencesHold(Replay(log), CreateBatch(rec, LastSeq(Replay(log), CounterSubject(rec.id.orderingScope))))
  {
    HistoryIsChain(log, rec.id);
    LegalLogWellFormed(log);
  }

  /** What Create of a fresh identity comes to when nobody interferes. */
  function UndisturbedCreate(counter: uint64, req: Request): CreateOutcome {
    if counter == MAX_UINT64 then OrderExhausted else Stored(Candidate(req, counter + 1), true)
  }

  /** One pass of the retry loop: read the counter, publish, classify. None means try again. */
  method Attempt(seam: OrderedSeam, me: nat, req: Request, ghost start: seq<Entry>) returns (out: Option<CreateOutcome>)
    requires seam.Valid() && Idle(seam.log, seam.pending, me) && ValidRequest(req)
    requires start <= seam.log && Versions(start, req.id) == []
    modifies seam
    ensures seam.Valid() && old(seam.log) <= seam.log
    ensures out.None? ==> Idle(seam.log, seam.pending, me)
    ensures out.Some? ==> CreateHonest(out.value, start, seam.log, seam.pending, me, req)
    ensures out == Some(OrderExhausted) ==> CounterValue(Replay(seam.log), req.id.orderingScope) == MAX_UINT64
    ensures out.Some? ==> !out.value.CreateInvalid? && !out.value.CreateCancelled? && !out.value.Contention?
    ensures old(seam.fates) <= seam.fates
    ensures seam.AnsweredSince(|old(seam.fates)|) && out.Some? ==> !out.value.CreateFailed? && !out.value.CreateUnresolved?
    ensures out == Some(CreateUnresolved) ==> exists i :: |old(seam.fates)| <= i < |seam.fates| && seam.fates[i].LoseAck?
    ensures out.None? ==> seam.refused == old(seam.refused) + 1
    ensures seam.cancelled == old(seam.cancelled)
    ensures old(seam.Quiet()) && Versions(old(seam.log), req.id) == [] ==>
              out == Some(UndisturbedCreate(CounterValue(Replay(old(seam.log)), req.id.orderingScope), req))
  {
    hide LegalLog, Versions, Replay, Settled, ValidIdentity;
    var msg := seam.LastMsgForSubject(me, CounterSubject(req.id.orderingScope));
    CounterPayload(seam.log, req.id.orderingScope);
    if msg.ReadFailed? { return Some(CreateFailed); }
    var counterSeq, last := 0, 0;
    if msg.Found? {
      counterSeq, last := msg.seqno, msg.data.order;
    }
    if last == MAX_UINT64 { return Some(OrderExhausted); }
    var rec := Candidate(req, last + 1);
    var ack := PublishCreate(seam, me, rec, counterSeq);
    var readBack := NoRecord;
    if ack.PreconditionFailed? || ack.Unknown? {
      readBack := ReadRecord(seam, me, req.id);
    }
    HonestAfterPublish(ack, readBack, start, seam.log, seam.pending, me, req, rec, counterSeq);
    return ClassifyCreate(ack, rec, readBack);
  }

  /** Publishes the counter and the record as one batch, each under its own fence. */
  method PublishCreate(seam: OrderedSeam, me: nat, rec: OrderedRecord, counterSeq: nat) returns (ack: Ack)
    requires seam.Valid() && Idle(seam.log, seam.pending, me)
    requires ValidRecord(rec) && rec.revision == 1 && !rec.deleted
    requires counterSeq == LastSeq(Replay(seam.log), CounterSubject(rec.id.orderingScope))
    requires rec.order == CounterValue(Replay(seam.log), rec.id.orderingScope) + 1
    modifies seam
    ensures seam.Valid() && old(seam.log) <= seam.log
    ensures Only(seam.log, seam.pending, me, Entry(me, CreateBatch(rec, counterSeq)))
    ensures ack.Acked? ==> seam.log != [] && seam.log[|seam.log| - 1] == Entry(me, CreateBatch(rec, counterSeq))
    ensures ack.PreconditionFailed? ==> Idle(seam.log, seam.pending, me)
    ensures |seam.fates| == |old(seam.fates)| + 1 && old(seam.fates) <= seam.fates
    ensures ack.Unknown? <==> seam.fates[|old(seam.fates)|].LoseAck?
    ensures ack.Failed? <==> seam.fates[|old(seam.fates)|].Break?
    ensures seam.refused == old(seam.refused) + (if ack.PreconditionFailed? then 1 else 0) && seam.cancelled == old(seam.cancelled)
    ensures old(seam.Quiet()) && Versions(old(seam.log), rec.id) == [] ==> ack.Acked?
  {
    hide LegalLog, Versions, Replay, FencesHold, CreateBatch, LegalWhenever;
    CreateIsLegal(seam.log, me, rec, counterSeq);
    UndisturbedFencesHold(seam.log, rec);
    ack := seam.Publish(me, CreateBatch(rec, counterSeq));
  }

  /** Create, with its bounded retry loop. */
  method Create(seam: OrderedSeam, me: nat, req: Request) returns (out: CreateOutcome)
    requires seam.Valid() && Idle(seam.log, seam.pending, me)
    modifies seam
    ensures seam.Valid() && old(seam.log) <= seam.log
    ensures CreateHonest(out, old(seam.log), seam.log, seam.pending, me, req)
    ensures out.OrderExhausted? ==> CounterValue(Replay(seam.log), req.id.orderingScope) == MAX_UINT64
    ensures Versions(old(seam.log), req.id) != [] && ValidIdentity(req.id) ==> (out.Stored? && !out.created) || out.CreateFailed?
    // A record reported as created is, field by field, the one submitted, at revision one.
    ensures out.Stored? && out.created ==>
              && out.rec.id == req.id && out.rec.rankingScope == req.rankingScope && out.rec.value == req.value
              && out.rec.rank == req.rank && out.rec.due == req.due && out.rec.revision == 1 && !out.rec.deleted
    ensures !ValidIdentity(req.id) ==> out.CreateInvalid?
    ensures out.CreateInvalid? ==>
              !ValidIdentity(req.id) || !ValidName(req.rankingScope) || MAX_ORDERED_VALUE_BYTES < |req.value|
    // Giving up, failing and not knowing need a cause.
    ensures seam.AnsweredSince(|old(seam.fates)|) ==> !out.CreateFailed? && !out.CreateUnresolved? && !out.CreateCancelled?
    ensures out.CreateUnresolved? ==> exists i :: |old(seam.fates)| <= i < |seam.fates| && seam.fates[i].LoseAck?
    ensures out.Contention? ==> seam.refused == old(seam.refused) + 64
    ensures out.CreateCancelled? <==> seam.cancelled == old(seam.cancelled) + 1
    // Undisturbed: the existing record; else a refusal of the arguments or an exhausted scope; else the
    // record is created at the scope's next order.
    ensures old(seam.Quiet()) && ValidIdentity(req.id) ==>
              var vs := Versions(old(seam.log), req.id);
              var counter := CounterValue(Replay(old(seam.log)), req.id.orderingScope);
              var fits := ValidName(req.rankingScope) && |req.value| <= MAX_ORDERED_VALUE_BYTES;
              && (vs != [] ==> out == Stored(vs[|vs| - 1], false) && seam.log == old(seam.log))
              && (vs == [] && !fits ==> out.CreateInvalid?)
              && (vs == [] && fits && counter == MAX_UINT64 ==> out.OrderExhausted?)
              && (vs == [] && fits && counter < MAX_UINT64 ==> out.Stored? && out.created && out.rec.order == counter + 1)
  {
    hide LegalLog, Versions, Replay, ValidIdentity, CounterValue;
    if !ValidIdentity(req.id) { return CreateInvalid; }
    var existing := ReadRecord(seam, me, req.id);
    VersionsGrow(old(seam.log), seam.log, req.id);
    if existing.RecordReadFailed? { return CreateFailed; }
    if existing.HasRecord? { return Stored(existing.rec, false); }
    if !ValidRequest(req) { return CreateInvalid; }
    var cancelled := seam.Wait(me);
    if cancelled { return CreateCancelled; }
    for attempt := 1 to CREATE_ATTEMPTS + 1
      invariant seam.Valid() && old(seam.log) <= seam.log && Idle(seam.log, seam.pending, me)
      invariant old(seam.fates) <= seam.fates && seam.refused == old(seam.refused) + attempt - 1 && seam.cancelled == old(seam.cancelled)
      invariant old(seam.Quiet()) ==> attempt == 1 && seam.Quiet() && seam.log == old(seam.log)
    {
      if attempt > 1 {
        cancelled := seam.Wait(me);
        if cancelled { return CreateCancelled; }
      }
      var done := Attempt(seam, me, req, old(seam.log));
      if done.Some? { return done.value; }
    }
    return Contention;
  }

  /** Two calls can both report that they created one identity only if they submitted the same
      record, order included: each returned the identity's one first version. */
  lemma CreatedTwiceIsTheSame(log1: seq<Entry>, log2: seq<Entry>, req1: Request, req2: Request, out1: CreateOutcome, out2: CreateOutcome)
    requires LegalLog(log2) && log1 <= log2 && req1.id == req2.id
    requires ClaimsTruly(out1, log1, req1) && ClaimsTruly(out2, log2, req2)
    requires out1.Stored? && out1.created && out2.Stored? && out2.created
    ensures req1 == req2 && out1.rec == out2.rec
  {
    hide LegalLog, Versions;
    VersionsGrow(log1, log2, req1.id);
  }

  /** A Create can disown its own record: the acknowledgement is lost, someone updates the record, and
      what the read-back then finds makes the answer created=false. */
  lemma CreateMayDisownItsRecord(req: Request)
    requires ValidRequest(req)
    ensures exists log, seqno :: LegalLog(log) && log != [] && log[0] == Entry(1, CreateBatch(Candidate(req, 1), 0))
              && ReadOf(log, req.id, Candidate(req, 1).(revision := 2), seqno)
              && ClassifyCreate(Unknown, Candidate(req, 1), HasRecord(Candidate(req, 1).(revision := 2), seqno))
                 == Some(Stored(Candidate(req, 1).(revision := 2), false))
  {
    hide ValidIdentity, ValidName;
    var rec := Candidate(req, 1);
    var first := Entry(1, CreateBatch(rec, 0));
    CreateIsLegal([], 1, rec, 0);
    assert FencesHold(Replay([]), first.batch);
    ReplayPush([], first);
    assert [] + [first] == [first];
    CommittedCreateIsFirst([first], 0, 1, rec, 0);
    HistoryIsChain([first], req.id);
    var next := rec.(revision := 2);
    var seqno := LastSeq(Replay([first]), RecordSubject(req.id));
    RevisionIsLegal([first], 2, next, seqno);
    var second := Entry(2, RevisionBatch(next, seqno));
    ReplayPush([first], second);
    var log := [first] + [second];
    CommittedRevisionIsNext([first], log, 1, 2, next, seqno);
    HistoryIsChain(log, req.id);
    assert ReadOf(log, req.id, next, LastSeq(Replay(log), RecordSubject(req.id)));
    assert log[0] == first;
  }

  // ---- Update and Delete ---------------------------------------------------

  datatype WriteOutcome =
    | Committed(rec: OrderedRecord)
    | NotFound
    | Tombstoned
    | Conflict(actual: uint64)
    | WriteInvalid
    | RevisionExhausted
    | WriteUnresolved
    | WriteFailed

  datatype Operation = UpdateOp | DeleteOp

  function RevisionBatch(next: OrderedRecord, seqno: nat): seq<FencedMsg> {
    [FencedMsg(RecordSubject(next.id), RecordPayload(next), seqno)]
  }

  /** How commitRevision reads the outcome of its publish. The absent record cannot arise there. */
  function ClassifyRevision(op: Operation, ack: Ack, next: OrderedRecord, readBack: RecordRead): WriteOutcome {
    match ack
    case Acked => Committed(next)
    case Failed => WriteFailed
    case PreconditionFailed =>
      (match readBack
       case RecordReadFailed => WriteFailed
       case NoRecord => NotFound
       case HasRecord(current, _) =>
         if !current.deleted then Conflict(current.revision)
         else if op == DeleteOp then Committed(current) else Tombstoned)
    case Unknown =>
      (match readBack
       case RecordReadFailed => WriteFailed
       case NoRecord => WriteUnresolved
       case HasRecord(current, _) => if current == next then Committed(current) else WriteUnresolved)
  }

  /** Success means the record is the version right after expectedRevision; Delete may instead
      report the tombstone it found. */
  ghost predicate WroteOnTop(out: WriteOutcome, log: seq<Entry>, next: OrderedRecord, expected: uint64, op: Operation) {
    out.Committed? ==>
      var vs := Versions(log, next.id);
      || (1 <= expected < |vs| && vs[expected] == out.rec == next)
      || (op == DeleteOp && vs != [] && out.rec == vs[|vs| - 1] && out.rec.deleted)
  }

  /** Every other definite answer wrote nothing, leaves nothing under way, and is true of the record.
      An unresolved write that had landed was revised again before it was looked for; one that has
      not landed can land only while the record is still at the expected version. */
  ghost predicate RefusesTruly(out: WriteOutcome, start: seq<Entry>, log: seq<Entry>, pending: seq<Entry>, me: nat, id: Identity, expected: uint64) {
    var vs := Versions(log, id);
    && (!out.Committed? && !out.WriteFailed? && !out.WriteUnresolved? ==> Idle(log, pending, me))
    && (out.NotFound? ==> Versions(start, id) == [])
    && (out.Tombstoned? ==> vs != [] && vs[|vs| - 1].deleted)
    && (out.Conflict? ==> out.actual != expected && out.actual == |vs|)
    && (out.RevisionExhausted? ==> |vs| == MAX_UINT64)
    && (out.WriteUnresolved? && Wrote(log, me) ==> expected + 1 < |vs|)
    && ((out.Committed? || out.WriteUnresolved?) && expected < |vs| ==> Settled(log, pending, me))
  }

  lemma RevisionIsLegal(read: seq<Entry>, me: nat, next: OrderedRecord, seqno: nat)
    requires LegalLog(read) && Head(Replay(read), next.id).Some? && Succeeds(Head(Replay(read), next.id).value, next)
    requires seqno == LastSeq(Replay(read), RecordSubject(next.id))
    ensures LegalWhenever(read, Entry(me, RevisionBatch(next, seqno)))
    ensures FencesHold(Replay(read), RevisionBatch(next, seqno))
  {
    var batch := RevisionBatch(next, seqno);
    forall later | LegalLog(later) && read <= later && FencesHold(Replay(later), batch)
      ensures LegalEntry(Replay(later), Entry(me, batch))
    {
      assert batch[0].subject == RecordSubject(next.id);
      FenceStable(read, later, RecordSubject(next.id));
    }
  }

  lemma RevisionCounts(log: seq<Entry>, next: OrderedRecord)
    requires LegalLog(log) && Head(Replay(log), next.id).Some? && Succeeds(Head(Replay(log), next.id).value, next)
    ensures |Versions(log, next.id)| == next.revision - 1 >= 1
  {
    HistoryIsChain(log, next.id);
  }

  lemma RevisionContinues(read: seq<Entry>, front: seq<Entry>, me: nat, next: OrderedRecord, seqno: nat)
    requires LegalLog(front) && read <= front && LegalEntry(Replay(front), Entry(me, RevisionBatch(next, seqno)))
    requires Head(Replay(read), next.id).Some? && Succeeds(Head(Replay(read), next.id).value, next)
    requires seqno == LastSeq(Replay(read), RecordSubject(next.id))
    ensures |Versions(front, next.id)| == next.revision - 1 && VersionIn(RevisionBatch(next, seqno), next.id) == [next]
  {
    hide LegalLog, Replay, Versions, Succeeds;
    LegalLogWellFormed(front);
    VersionInStep(Replay(front), Entry(me, RevisionBatch(next, seqno)), next.id);
    assert RevisionBatch(next, seqno)[0].subject == RecordSubject(next.id);
    FenceStable(read, front, RecordSubject(next.id));
    RevisionCounts(front, next);
  }

  /** Wherever the batch stands after the read it was built from, it is the next version. */
  lemma CommittedRevisionIsNext(read: seq<Entry>, log: seq<Entry>, i: nat, me: nat, next: OrderedRecord, seqno: nat)
    requires LegalLog(log) && read <= log && |read| <= i < |log| && log[i] == Entry(me, RevisionBatch(next, seqno))
    requires Head(Replay(read), next.id).Some? && Succeeds(Head(Replay(read), next.id).value, next)
    requires seqno == LastSeq(Replay(read), RecordSubject(next.id))
    ensures next.revision <= |Versions(log, next.id)| && Versions(log, next.id)[next.revision - 1] == next
    ensures i == |log| - 1 ==> |Versions(log, next.id)| == next.revision
  {
    hide VersionIn, Succeeds, LegalEntry, RevisionBatch, Replay, Head, LastSeq;
    var front, upTo := log[..i], log[..i + 1];
    LegalPrefix(upTo, log);
    assert upTo[..|upTo| - 1] == front && upTo[|upTo| - 1] == log[i] && read <= front;
    RevisionContinues(read, front, me, next, seqno);
    assert Versions(upTo, next.id) == Versions(front, next.id) + [next];
    VersionsGrow(upTo, log, next.id);
    assert i == |log| - 1 ==> upTo == log;
  }

  /** A failed fence on a record subject means that the record has moved on. */
  lemma LostFence(read: seq<Entry>, later: seq<Entry>, id: Identity)
    requires LegalLog(later) && read <= later
    requires LastSeq(Replay(later), RecordSubject(id)) != LastSeq(Replay(read), RecordSubject(id))
    ensures |Versions(read, id)| < |Versions(later, id)|
  {
    if |Versions(later, id)| <= |Versions(read, id)| { SeqMovesWithVersions(read, later, id); }
  }

  /** Once the record has moved on, a revision built on the old version can never land. */
  lemma NewerBlocksRevision(read: seq<Entry>, log: seq<Entry>, pending: seq<Entry>, me: nat, next: OrderedRecord, seqno: nat)
    requires LegalLog(log) && read <= log && |Versions(read, next.id)| < |Versions(log, next.id)|
    requires seqno == LastSeq(Replay(read), RecordSubject(next.id))
    requires Only(log, pending, me, Entry(me, RevisionBatch(next, seqno)))
    ensures Settled(log, pending, me)
  {
    hide Versions, LegalLog;
    var batch := RevisionBatch(next, seqno);
    forall later | LegalLog(later) && log <= later ensures !FencesHold(Replay(later), batch) {
      VersionsGrow(log, later, next.id);
      VersionsMoveSeq(read, later, next.id);
      assert batch[0].subject == RecordSubject(next.id);
    }
  }

  ghost predicate RevisionHonest(out: WriteOutcome, start: seq<Entry>, log: seq<Entry>, pending: seq<Entry>,
                                 me: nat, next: OrderedRecord, expected: uint64, op: Operation) {
    && WroteOnTop(out, log, next, expected, op)
    && RefusesTruly(out, start, log, pending, me, next.id, expected)
    && (op == UpdateOp && out.Committed? ==> out.rec == next)
    && (op == DeleteOp ==> !out.Tombstoned?)
    && (Wrote(log, me) ==> 1 <= expected < |Versions(log, next.id)| && Versions(log, next.id)[expected] == next)
    && LandsAs(log, pending, me, next, expected)
  }

  /** Whenever the call's write lands, be it after the call has returned, it is the version right after
      expectedRevision. */
  ghost predicate LandsAs(log: seq<Entry>, pending: seq<Entry>, me: nat, next: OrderedRecord, expected: uint64) {
    forall later, laterPending ::
      LegalLog(later) && Grew(log, pending, later, laterPending, me) && Wrote(later, me) ==>
        expected < |Versions(later, next.id)| && Versions(later, next.id)[expected] == next
  }

  /** If an unresolved or failed revision lands after its call returned, it lands right after the
      expected version. */
  lemma LateRevisionIsNext(read: seq<Entry>, log: seq<Entry>, pending: seq<Entry>, later: seq<Entry>, laterPending: seq<Entry>,
                           me: nat, next: OrderedRecord, seqno: nat)
    requires LegalLog(later) && read <= log && !Wrote(read, me)
    requires Head(Replay(read), next.id).Some? && Succeeds(Head(Replay(read), next.id).value, next)
    requires seqno == LastSeq(Replay(read), RecordSubject(next.id))
    requires Only(log, pending, me, Entry(me, RevisionBatch(next, seqno)))
    requires Grew(log, pending, later, laterPending, me) && Wrote(later, me)
    ensures next.revision <= |Versions(later, next.id)| && Versions(later, next.id)[next.revision - 1] == next
  {
    hide LegalLog, Versions, RevisionBatch, Replay, Head, Succeeds;
    var i :| 0 <= i < |later| && later[i].writer == me;
    assert i < |log| ==> later[i] == log[i];
    assert forall j :: 0 <= j < |read| ==> read[j] == later[j];
    CommittedRevisionIsNext(read, later, i, me, next, seqno);
  }

  lemma AlwaysLandsAs(read: seq<Entry>, log: seq<Entry>, pending: seq<Entry>, me: nat, next: OrderedRecord, seqno: nat, expected: uint64)
    requires read <= log && !Wrote(read, me) && next.revision == expected + 1
    requires Head(Replay(read), next.id).Some? && Succeeds(Head(Replay(read), next.id).value, next)
    requires seqno == LastSeq(Replay(read), RecordSubject(next.id))
    requires Only(log, pending, me, Entry(me, RevisionBatch(next, seqno)))
    ensures LandsAs(log, pending, me, next, expected)
  {
    hide LegalLog, Versions, RevisionBatch, Replay, Head, Succeeds, Only;
    forall later, laterPending | LegalLog(later) && Grew(log, pending, later, laterPending, me) && Wrote(later, me)
      ensures expected < |Versions(later, next.id)| && Versions(later, next.id)[expected] == next
    {
      LateRevisionIsNext(read, log, pending, later, laterPending, me, next, seqno);
    }
  }

  /** Every answer commitRevision gives after its publish is honest. */
  lemma HonestAfterRevision(op: Operation, ack: Ack, readBack: RecordRead, start: seq<Entry>, read: seq<Entry>, log: seq<Entry>,
                            pending: seq<Entry>, me: nat, next: OrderedRecord, seqno: nat, expected: uint64)
    requires LegalLog(log) && start <= read <= log && !Wrote(read, me)
    requires Head(Replay(read), next.id).Some? && Succeeds(Head(Replay(read), next.id).value, next)
    requires seqno == LastSeq(Replay(read), RecordSubject(next.id)) && next.revision == expected + 1
    requires Only(log, pending, me, Entry(me, RevisionBatch(next, seqno)))
    requires ack.Acked? ==> |read| < |log| && log[|log| - 1] == Entry(me, RevisionBatch(next, seqno))
    requires ack.PreconditionFailed? ==> Idle(log, pending, me) && expected < |Versions(log, next.id)|
    requires ack.PreconditionFailed? || ack.Unknown? ==>
               match readBack
               case RecordReadFailed => true
               case NoRecord => false
               case HasRecord(current, at) => ReadOf(log, next.id, current, at)
    ensures RevisionHonest(ClassifyRevision(op, ack, next, readBack), start, log, pending, me, next, expected, op)
  {
    hide LegalLog, Versions, RevisionBatch, Settled, Replay, Head, Succeeds, LandsAs;
    LegalPrefix(read, log);
    RevisionCounts(read, next);
    assert Grew(log, pending, log, pending, me);
    if Wrote(log, me) { LateRevisionIsNext(read, log, pending, log, pending, me, next, seqno); }
    if ack.Acked? { CommittedRevisionIsNext(read, log, |log| - 1, me, next, seqno); }
    if expected < |Versions(log, next.id)| { NewerBlocksRevision(read, log, pending, me, next, seqno); }
    AlwaysLandsAs(read, log, pending, me, next, seqno, expected);
  }

  /** Publishes next over the version that was read and classifies the outcome. */
  method CommitRevision(seam: OrderedSeam, me: nat, seqno: nat, next: OrderedRecord, expected: uint64, op: Operation, ghost start: seq<Entry>)
    returns (out: WriteOutcome)
    requires seam.Valid() && Idle(seam.log, seam.pending, me) && start <= seam.log
    requires Head(Replay(seam.log), next.id).Some? && Succeeds(Head(Replay(seam.log), next.id).value, next)
    requires seqno == LastSeq(Replay(seam.log), RecordSubject(next.id)) && next.revision == expected + 1
    modifies seam
    ensures seam.Valid() && old(seam.log) <= seam.log
    ensures RevisionHonest(out, start, seam.log, seam.pending, me, next, expected, op)
    ensures old(seam.fates) <= seam.fates && !out.NotFound? && !out.WriteInvalid? && !out.RevisionExhausted?
    ensures seam.AnsweredSince(|old(seam.fates)|) ==> !out.WriteFailed? && !out.WriteUnresolved?
    ensures out.WriteUnresolved? ==> exists i :: |old(seam.fates)| <= i < |seam.fates| && seam.fates[i].LoseAck?
    ensures old(seam.Quiet()) ==> out == Committed(next)
  {
    hide LegalLog, Versions, Replay, RevisionHonest, FencesHold, Head, Succeeds;
    ghost var read := seam.log;
    RevisionCounts(read, next);
    var ack := PublishRevision(seam, me, next, seqno);
    ghost var published := seam.log;
    var readBack := NoRecord;
    if ack.PreconditionFailed? || ack.Unknown? {
      readBack := ReadRecord(seam, me, next.id);
      // A record that was read once never disappears.
      VersionsGrow(published, seam.log, next.id);
      VersionsGrow(read, seam.log, next.id);
    }
    HonestAfterRevision(op, ack, readBack, start, read, seam.log, seam.pending, me, next, seqno, expected);
    return ClassifyRevision(op, ack, next, readBack);
  }

  method PublishRevision(seam: OrderedSeam, me: nat, next: OrderedRecord, seqno: nat) returns (ack: Ack)
    requires seam.Valid() && Idle(seam.log, seam.pending, me)
    requires Head(Replay(seam.log), next.id).Some? && Succeeds(Head(Replay(seam.log), next.id).value, next)
    requires seqno == LastSeq(Replay(seam.log), RecordSubject(next.id))
    modifies seam
    ensures seam.Valid() && old(seam.log) <= seam.log
    ensures Only(seam.log, seam.pending, me, Entry(me, RevisionBatch(next, seqno)))
    ensures ack.Acked? ==> |old(seam.log)| < |seam.log| && seam.log[|seam.log| - 1] == Entry(me, RevisionBatch(next, seqno))
    ensures ack.PreconditionFailed? ==> Idle(seam.log, seam.pending, me) && next.revision <= |Versions(seam.log, next.id)|
    ensures |seam.fates| == |old(seam.fates)| + 1 && old(seam.fates) <= seam.fates
    ensures ack.Unknown? <==> seam.fates[|old(seam.fates)|].LoseAck?
    ensures ack.Failed? <==> seam.fates[|old(seam.fates)|].Break?
    ensures old(seam.Quiet()) ==> ack.Acked?
  {
    hide LegalLog, Versions, Replay, LegalWhenever, Head, Succeeds;
    ghost var read := seam.log;
    RevisionCounts(read, next);
    RevisionIsLegal(read, me, next, seqno);
    ack := seam.Publish(me, RevisionBatch(next, seqno));
    if ack.PreconditionFailed? { LostFence(read, seam.log, next.id); }
  }

  method Update(seam: OrderedSeam, me: nat, id: Identity, expected: uint64, value: seq<byte>, rank: Rank, due: Due)
    returns (out: WriteOutcome)
    requires seam.Valid() && Idle(seam.log, seam.pending, me)
    modifies seam
    ensures seam.Valid() && old(seam.log) <= seam.log
    // Success: the returned record was committed directly on top of the version at expected.
    ensures out.Committed? ==>
              && 1 <= expected < |Versions(seam.log, id)|
              && Versions(seam.log, id)[expected] == out.rec
              && out.rec.revision == expected + 1
              && out.rec == Versions(seam.log, id)[expected - 1].(revision := out.rec.revision, value := value, rank := rank, due := due)
    // Whatever the answer, all this call ever writes is that record.
    ensures Idle(seam.log, seam.pending, me) ||
            (var vs := Versions(seam.log, id);
             && 1 <= expected <= |vs| && expected < MAX_UINT64
             && LandsAs(seam.log, seam.pending, me, vs[expected - 1].(revision := expected + 1, value := value, rank := rank, due := due), expected))
    ensures ValidIdentity(id) ==> RefusesTruly(out, old(seam.log), seam.log, seam.pending, me, id, expected)
    ensures !ValidIdentity(id) ==> out.WriteInvalid?
    ensures out.WriteInvalid? ==> !ValidIdentity(id) || MAX_ORDERED_VALUE_BYTES < |value|
    ensures seam.AnsweredSince(|old(seam.fates)|) ==> !out.WriteFailed? && !out.WriteUnresolved?
    ensures out.WriteUnresolved? ==> exists i :: |old(seam.fates)| <= i < |seam.fates| && seam.fates[i].LoseAck?
    // Undisturbed: each answer, exactly when.
    ensures old(seam.Quiet()) && ValidIdentity(id) ==>
              var vs := Versions(old(seam.log), id);
              var live := vs != [] && !vs[|vs| - 1].deleted;
              var fits := |value| <= MAX_ORDERED_VALUE_BYTES;
              && (out.NotFound? <==> vs == [])
              && (out.Tombstoned? <==> vs != [] && vs[|vs| - 1].deleted)
              && (out.WriteInvalid? <==> live && !fits)
              && (out.Conflict? <==> live && fits && |vs| != expected)
              && (out.RevisionExhausted? <==> live && fits && |vs| == expected == MAX_UINT64)
              && (out.Committed? <==> live && fits && |vs| == expected < MAX_UINT64)
              && (out.Conflict? ==> out.actual == |vs|)
  {
    hide LegalLog, Versions, Replay, ValidIdentity, ValidName, LandsAs, Settled, LastSeq;
    if !ValidIdentity(id) { return WriteInvalid; }
    var current := ReadRecord(seam, me, id);
    VersionsGrow(old(seam.log), seam.log, id);
    if current.RecordReadFailed? { return WriteFailed; }
    if current.NoRecord? { return NotFound; }
    if current.rec.deleted { return Tombstoned; }
    if |value| > MAX_ORDERED_VALUE_BYTES { return WriteInvalid; }
    if current.rec.revision != expected { return Conflict(current.rec.revision); }
    if current.rec.revision == MAX_UINT64 { return RevisionExhausted; }
    var next := current.rec.(revision := current.rec.revision + 1, value := value, rank := rank, due := due);
    ghost var read := seam.log;
    out := CommitRevision(seam, me, current.seqno, next, expected, UpdateOp, old(seam.log));
    VersionsGrow(read, seam.log, id);
  }

  lemma IdleIsSettled(log: seq<Entry>, pending: seq<Entry>, me: nat)
    requires Idle(log, pending, me)
    ensures Settled(log, pending, me)
  {
  }

  /** The tombstone Delete reports, its own or another's, is the last version, bare but for its value. */
  lemma TombstoneStands(out: WriteOutcome, log: seq<Entry>, next: OrderedRecord, expected: uint64)
    requires LegalLog(log) && WroteOnTop(out, log, next, expected, DeleteOp) && next.deleted
    ensures out.Committed? ==>
              var vs := Versions(log, next.id);
              && 2 <= |vs| && out.rec == vs[|vs| - 1] && out.rec.deleted
              && !out.rec.rank.ranked && out.rec.due == NotDue && out.rec.value == vs[|vs| - 2].value
              && (1 <= expected < |vs| && vs[expected] == next ==> expected == |vs| - 1)
  {
    hide LegalLog, Versions;
    if out.Committed? {
      var vs := Versions(log, next.id);
      TombstoneIsLast(log, next.id, if 1 <= expected < |vs| && vs[expected] == next then expected else |vs| - 1);
    }
  }

  method Delete(seam: OrderedSeam, me: nat, id: Identity, expected: uint64) returns (out: WriteOutcome)
    requires seam.Valid() && Idle(seam.log, seam.pending, me)
    modifies seam
    ensures seam.Valid() && old(seam.log) <= seam.log
    // Success: the returned tombstone is the identity's last version, now and forever.
    ensures out.Committed? ==>
              var vs := Versions(seam.log, id);
              && vs != [] && out.rec == vs[|vs| - 1] && out.rec.deleted && !out.rec.rank.ranked && out.rec.due == NotDue
              && 2 <= |vs| && out.rec.value == vs[|vs| - 2].value
              && (Wrote(seam.log, me) ==> expected == |vs| - 1)
    ensures Idle(seam.log, seam.pending, me) ||
            (var vs := Versions(seam.log, id);
             && 1 <= expected <= |vs| && expected < MAX_UINT64
             && LandsAs(seam.log, seam.pending, me, vs[expected - 1].(revision := expected + 1, deleted := true, rank := UNRANKED, due := NotDue), expected))
    ensures ValidIdentity(id) ==> RefusesTruly(out, old(seam.log), seam.log, seam.pending, me, id, expected)
    ensures !out.Tombstoned?
    ensures !ValidIdentity(id) ==> out.WriteInvalid?
    ensures out.WriteInvalid? ==> !ValidIdentity(id)
    ensures seam.AnsweredSince(|old(seam.fates)|) ==> !out.WriteFailed? && !out.WriteUnresolved?
    ensures out.WriteUnresolved? ==> exists i :: |old(seam.fates)| <= i < |seam.fates| && seam.fates[i].LoseAck?
    // Undisturbed: each answer, exactly when; on a tombstone the work is already done.
    ensures old(seam.Quiet()) && ValidIdentity(id) ==>
              var vs := Versions(old(seam.log), id);
              var live := vs != [] && !vs[|vs| - 1].deleted;
              && (out.NotFound? <==> vs == [])
              && (out.Conflict? <==> live && |vs| != expected)
              && (out.RevisionExhausted? <==> live && |vs| == expected == MAX_UINT64)
              && (out.Committed? <==> vs != [] && (vs[|vs| - 1].deleted || |vs| == expected < MAX_UINT64))
              && (out.Conflict? ==> out.actual == |vs|)
              && (vs != [] && vs[|vs| - 1].deleted ==> out.rec == vs[|vs| - 1] && seam.log == old(seam.log))
  {
    hide LegalLog, Versions, Replay, ValidIdentity, ValidName, LandsAs, LastSeq, CounterValue, WroteOnTop, Settled;
    if !ValidIdentity(id) { return WriteInvalid; }
    var current := ReadRecord(seam, me, id);
    VersionsGrow(old(seam.log), seam.log, id);
    if current.RecordReadFailed? { return WriteFailed; }
    if current.NoRecord? { return NotFound; }
    if current.rec.deleted {
      TombstoneIsLast(seam.log, id, |Versions(seam.log, id)| - 1);
      IdleIsSettled(seam.log, seam.pending, me);
      return Committed(current.rec);
    }
    if current.rec.revision != expected { return Conflict(current.rec.revision); }
    if current.rec.revision == MAX_UINT64 { return RevisionExhausted; }
    var next := current.rec.(revision := current.rec.revision + 1, deleted := true, rank := UNRANKED, due := NotDue);
    ghost var read := seam.log;
    out := CommitRevision(seam, me, current.seqno, next, expected, DeleteOp, old(seam.log));
    VersionsGrow(read, seam.log, id);
    TombstoneStands(out, seam.log, next, expected);
  }
}
