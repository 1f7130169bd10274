/** The atomic batch as it is really sent: member by member, staged on the server under a
    batch id that carries no client identity, committed by the last member. */
module BatchPublish {
  import opened Storage
  import opened OrderedStream
  import opened DecimalCodec

  // ---- what one call puts on the wire --------------------------------------

  const MAX_BATCH_ID_LEN := 64
  const BATCH_ID_PREFIX := "ns-"
  const NONCE_HEX_LEN := 32

  /** One published member: its batch id, its place in the batch from one, its fence, and whether it commits. */
  datatype Wire = Wire(id: string, batchSeq: nat, msg: FencedMsg, commit: bool)

  function BatchId(nonce: string, counter: uint64): string {
    BATCH_ID_PREFIX + nonce + "-" + Format(counter)
  }

  function Frame(id: string, batch: seq<FencedMsg>, i: nat): Wire
    requires i < |batch|
  {
    Wire(id, i + 1, batch[i], i == |batch| - 1)
  }

  ghost predicate DistinctSubjects(batch: seq<FencedMsg>) {
    forall i, j :: 0 <= i < j < |batch| ==> batch[i].subject != batch[j].subject
  }

  datatype ErrorCode = WrongLastSequence | WrongLastSequenceConstant | OtherError

  datatype BatchAck = BatchAck(batchSize: nat, error: Option<ErrorCode>)

  /** The commit request's reply: an acknowledgement, none in time, a transport failure, or bytes
      that do not decode. */
  datatype Reply = Replied(ack: BatchAck) | NoReply | TransportFailed | Undecodable

  datatype Outcome =
    | BatchCommitted
    | BatchPrecondition
    | BatchRejected
    | BatchAmbiguous
    | BatchOpFailed
    | BatchRepeatsSubject(subject: Subject)

  function ClassifyAck(sent: nat, ack: BatchAck): Outcome {
    if ack.error.Some? then
      if ack.error.value == WrongLastSequence || ack.error.value == WrongLastSequenceConstant then BatchPrecondition
      else BatchRejected
    else if ack.batchSize != sent then BatchAmbiguous
    else BatchCommitted
  }

  /** Against a server that answers an error only when it committed nothing, and its true count
      otherwise, no batch that landed is ever reported as a definite failure, and none that did not
      land whole is reported as committed. */
  lemma AckIsHonest(sent: nat, landed: nat, ack: BatchAck)
    requires ack.error.Some? ==> landed == 0
    requires ack.error.None? ==> ack.batchSize == landed
    ensures ClassifyAck(sent, ack).BatchPrecondition? || ClassifyAck(sent, ack).BatchRejected? ==> landed == 0
    ensures ClassifyAck(sent, ack).BatchCommitted? ==> landed == sent
    ensures ClassifyAck(sent, ack).BatchAmbiguous? <==> ack.error.None? && landed != sent
  {
  }

  class BatchSeam {
    const nonce: string
    var batchID: uint64

    constructor (nonce: string)
      ensures this.nonce == nonce && batchID == 0
    {
      this.nonce, batchID := nonce, 0;
    }

    method NextBatchID() returns (id: string)
      modifies this
      ensures batchID == (if old(batchID) == MAX_UINT64 then 0 else old(batchID) + 1)
      ensures id == BatchId(nonce, batchID) == "ns-" + nonce + "-" + Format(batchID)
    {
      batchID := if batchID == MAX_UINT64 then 0 else batchID + 1;
      id := BatchId(nonce, batchID);
    }

    /** Sends a batch under a fresh id, every member with its own fence and number and only the last
        one committing. failAt is the member whose local publish fails, if any. */
    method PublishBatch(batch: seq<FencedMsg>, failAt: nat, reply: Reply) returns (out: Outcome, wire: seq<Wire>)
      modifies this
      // An empty batch and one that names a subject twice are refused unsent, with no id drawn.
      ensures batch == [] ==> out == BatchRejected && wire == [] && batchID == old(batchID)
      ensures !DistinctSubjects(batch) ==>
                out.BatchRepeatsSubject? && wire == [] && batchID == old(batchID)
                && exists i, j :: 0 <= i < j < |batch| && batch[i].subject == batch[j].subject == out.subject
      ensures batch != [] && DistinctSubjects(batch) ==>
                && |wire| == (if failAt < |batch| - 1 then failAt else |batch|)
                && (forall i :: 0 <= i < |wire| ==> wire[i] == Frame(BatchId(nonce, batchID), batch, i))
                && (forall i :: 0 <= i < |wire| ==> wire[i].batchSeq == i + 1 && wire[i].msg == batch[i] && (wire[i].commit <==> i == |batch| - 1))
                && (failAt < |batch| - 1 ==> out == BatchOpFailed)
                && (failAt >= |batch| - 1 ==>
                      match reply
                      case Replied(ack) => out == ClassifyAck(|batch|, ack)
                      case NoReply => out == BatchAmbiguous
                      case _ => out == BatchOpFailed)
    {
      wire := [];
      if |batch| == 0 { return BatchRejected, []; }
      var seen: set<Subject> := {};
      for i := 0 to |batch|
        invariant forall s :: s in seen <==> exists j :: 0 <= j < i && batch[j].subject == s
        invariant forall j, k :: 0 <= j < k < i ==> batch[j].subject != batch[k].subject
        invariant batchID == old(batchID)
      {
        if batch[i].subject in seen { return BatchRepeatsSubject(batch[i].subject), []; }
        seen := seen + {batch[i].subject};
      }
      var id := NextBatchID();
      for i := 0 to |batch|
        invariant |wire| == i && i <= (if failAt < |batch| - 1 then failAt else |batch| - 1)
        invariant forall j :: 0 <= j < i ==> wire[j] == Frame(id, batch, j)
        invariant id == BatchId(nonce, batchID)
      {
        if i < |batch| - 1 {
          if i == failAt { return BatchOpFailed, wire; }
          wire := wire + [Wire(id, i + 1, batch[i], false)];
        } else {
          wire := wire + [Wire(id, i + 1, batch[i], true)];
          match reply
          case Replied(ack) => return ClassifyAck(|batch|, ack), wire;
          case NoReply => return BatchAmbiguous, wire;
          case _ => return BatchOpFailed, wire;
        }
      }
    }
  }

  /** Ids of one seam differ by counter, ids of seams with different nonces differ, and all of them
      fit the server's limit. */
  lemma BatchIdsDistinct(n1: string, c1: uint64, n2: string, c2: uint64)
    requires |n1| == |n2| == NONCE_HEX_LEN
    ensures BatchId(n1, c1) == BatchId(n2, c2) ==> n1 == n2 && c1 == c2
    ensures |BatchId(n1, c1)| <= MAX_BATCH_ID_LEN
  {
    Uint64Length(c1);
    var a, b := BatchId(n1, c1), BatchId(n2, c2);
    if a == b {
      assert a[3..35] == n1 && b[3..35] == n2;
      assert a[36..] == Format(c1) && b[36..] == Format(c2);
      FormatIsInjective(c1, c2);
    }
  }

  // ---- many calls, one server ----------------------------------------------

  datatype Call = Call(id: string, batch: seq<FencedMsg>)

  /** The server's stream, what it has staged per batch id, how many members each call has sent, and
      the batches it has committed or refused as a whole, in order. */
  datatype Server = Server(stream: StreamState, staged: map<string, seq<FencedMsg>>, sent: seq<nat>)

  /** The next member of a call reaches the server, or is lost; or the server times a batch out. */
  datatype Event = Arrive(call: nat) | Lose(call: nat) | Expire(id: string)

  function Staged(srv: Server, id: string): seq<FencedMsg> {
    if id in srv.staged then srv.staged[id] else []
  }

  /** All of the batch, or none of it. */
  function PublishAtomic(st: StreamState, batch: seq<FencedMsg>): StreamState {
    if FencesHold(st, batch) then StoreAll(st, batch) else st
  }

  /** One member at the server: a gap in the batch's numbering abandons it, the commit applies it. */
  function Receive(srv: Server, w: Wire): Server {
    var have := Staged(srv, w.id);
    if w.batchSeq != |have| + 1 then srv.(staged := srv.staged - {w.id})
    else if !w.commit then srv.(staged := srv.staged[w.id := have + [w.msg]])
    else srv.(staged := srv.staged - {w.id}, stream := PublishAtomic(srv.stream, have + [w.msg]))
  }

  /** The server's acknowledgement of a member that commits. A failed fence has one code on a single
      server and another on a replicated stream. */
  function Answer(srv: Server, w: Wire, replicated: bool): BatchAck {
    var have := Staged(srv, w.id);
    if w.batchSeq != |have| + 1 then BatchAck(0, Some(OtherError))
    else if FencesHold(srv.stream, have + [w.msg]) then BatchAck(|have| + 1, None)
    else BatchAck(0, Some(if replicated then WrongLastSequenceConstant else WrongLastSequence))
  }

  predicate MaySend(calls: seq<Call>, srv: Server, c: nat) {
    c < |calls| == |srv.sent| && srv.sent[c] < |calls[c].batch|
  }

  function Next(calls: seq<Call>, srv: Server, ev: Event): Server {
    match ev
    case Arrive(c) =>
      if !MaySend(calls, srv, c) then srv
      else Receive(srv.(sent := srv.sent[c := srv.sent[c] + 1]), Frame(calls[c].id, calls[c].batch, srv.sent[c]))
    case Lose(c) =>
      if !MaySend(calls, srv, c) then srv else srv.(sent := srv.sent[c := srv.sent[c] + 1])
    case Expire(id) => srv.(staged := srv.staged - {id})
  }

  function Start(calls: seq<Call>): Server {
    Server(EMPTY, map[], seq(|calls|, _ => 0))
  }

  ghost predicate DistinctIds(calls: seq<Call>) {
    forall c, d :: 0 <= c < d < |calls| ==> calls[c].id != calls[d].id
  }

  /** What is staged under a call's id is an initial part of that call's own batch. */
  ghost predicate Unmixed(calls: seq<Call>, srv: Server) {
    && |srv.sent| == |calls|
    && forall c :: 0 <= c < |calls| ==>
         && |Staged(srv, calls[c].id)| <= srv.sent[c] <= |calls[c].batch|
         && Staged(srv, calls[c].id) == calls[c].batch[..|Staged(srv, calls[c].id)|]
  }

  /** A step sends at most one member of one call. */
  ghost predicate SentOnly(calls: seq<Call>, srv: Server, next: Server, ev: Event) {
    && |next.sent| == |srv.sent| == |calls|
    && (forall c :: 0 <= c < |calls| ==> srv.sent[c] <= next.sent[c])
    && (ev.Arrive? && MaySend(calls, srv, ev.call) ==> next.sent[ev.call] == srv.sent[ev.call] + 1)
  }

  /** The step of the call that the atomic publish stands for: its last member's arrival, at most once. */
  predicate Finishes(calls: seq<Call>, srv: Server, ev: Event) {
    ev.Arrive? && MaySend(calls, srv, ev.call) && srv.sent[ev.call] + 1 == |calls[ev.call].batch|
  }

  /** Main result on batches: with distinct ids every step of the staged protocol leaves the stream
      alone, or is one whole call's atomic fenced publish. */
  lemma StepRefinesAtomicPublish(calls: seq<Call>, srv: Server, ev: Event)
    requires DistinctIds(calls) && Unmixed(calls, srv)
    ensures Unmixed(calls, Next(calls, srv, ev))
    ensures var next := Next(calls, srv, ev);
            || next.stream == srv.stream
            || (Finishes(calls, srv, ev) && next.stream == PublishAtomic(srv.stream, calls[ev.call].batch))
  {
    if ev.Arrive? && MaySend(calls, srv, ev.call) {
      var c := ev.call;
      var k, batch, have := srv.sent[c], calls[c].batch, Staged(srv, calls[c].id);
      assert |have| == k ==> have + [batch[k]] == batch[..k + 1];
      assert k + 1 == |batch| ==> batch[..k + 1] == batch;
      forall d | 0 <= d < |calls| && d != c
        ensures Staged(Next(calls, srv, ev), calls[d].id) == Staged(srv, calls[d].id)
      {
        assert calls[d].id != calls[c].id;
      }
    }
  }

  /** What the caller makes of the server's answer to its last member is the truth about the whole
      batch: committed if and only if all of it is now on the stream, a failed precondition only if
      its fences do not hold, and otherwise refused because a member was lost; never ambiguous. */
  lemma AnswerIsTrue(calls: seq<Call>, srv: Server, ev: Event, replicated: bool)
    requires DistinctIds(calls) && Unmixed(calls, srv) && Finishes(calls, srv, ev)
    ensures var batch := calls[ev.call].batch;
            var out := ClassifyAck(|batch|, Answer(srv, Frame(calls[ev.call].id, batch, srv.sent[ev.call]), replicated));
            var next := Next(calls, srv, ev);
            var whole := |Staged(srv, calls[ev.call].id)| == |batch| - 1;
            && (out.BatchCommitted? <==> whole && FencesHold(srv.stream, batch))
            && (out.BatchPrecondition? <==> whole && !FencesHold(srv.stream, batch))
            && (out.BatchRejected? <==> !whole)
            && next.stream == (if out.BatchCommitted? then StoreAll(srv.stream, batch) else srv.stream)
            && !out.BatchAmbiguous?
  {
    var c := ev.call;
    var k, batch, have := srv.sent[c], calls[c].batch, Staged(srv, calls[c].id);
    assert |have| == k ==> have + [batch[k]] == batch[..k + 1];
    assert batch[..k + 1] == batch;
  }

  lemma StepSendsOne(calls: seq<Call>, srv: Server, ev: Event)
    requires Unmixed(calls, srv)
    ensures SentOnly(calls, srv, Next(calls, srv, ev), ev)
  {
  }

  function Run(calls: seq<Call>, srv: Server, events: seq<Event>): Server
    decreases |events|
  {
    if events == [] then srv else Run(calls, Next(calls, srv, events[0]), events[1..])
  }

  function AtomicRun(calls: seq<Call>, st: StreamState, order: seq<nat>): StreamState
    requires forall i :: 0 <= i < |order| ==> order[i] < |calls|
    decreases |order|
  {
    if order == [] then st else AtomicRun(calls, PublishAtomic(st, calls[order[0]].batch), order[1..])
  }

  /** Over whole runs: the stream is what some order of atomic publishes gives, each of a whole call,
      none twice, and none whose sending had ended before. */
  lemma {:induction false} RunRefinesAtomicPublishes(calls: seq<Call>, srv: Server, events: seq<Event>) returns (order: seq<nat>)
    requires DistinctIds(calls) && Unmixed(calls, srv)
    ensures forall i :: 0 <= i < |order| ==> order[i] < |calls| && srv.sent[order[i]] < |calls[order[i]].batch|
    ensures forall i, j :: 0 <= i < j < |order| ==> order[i] != order[j]
    ensures Run(calls, srv, events).stream == AtomicRun(calls, srv.stream, order)
    ensures Unmixed(calls, Run(calls, srv, events))
    ensures forall c :: 0 <= c < |calls| ==> srv.sent[c] <= Run(calls, srv, events).sent[c]
    ensures forall i :: 0 <= i < |order| ==> Run(calls, srv, events).sent[order[i]] == |calls[order[i]].batch|
    decreases |events|
  {
    hide Next, PublishAtomic, Staged;
    if events == [] { return []; }
    var next := Next(calls, srv, events[0]);
    StepRefinesAtomicPublish(calls, srv, events[0]);
    StepSendsOne(calls, srv, events[0]);
    var rest := RunRefinesAtomicPublishes(calls, next, events[1..]);
    if next.stream == srv.stream {
      order := rest;
    } else {
      order := [events[0].call] + rest;
      assert order[1..] == rest;
    }
  }

  /** A call that stops before its last member, as one does whose local publish fails, never lands: the
      stream is what the other calls' atomic publishes give. */
  lemma StoppedCallNeverLands(calls: seq<Call>, events: seq<Event>, c: nat) returns (order: seq<nat>)
    requires DistinctIds(calls) && c < |calls| && |Run(calls, Start(calls), events).sent| == |calls|
    requires Run(calls, Start(calls), events).sent[c] < |calls[c].batch|
    ensures (forall i :: 0 <= i < |order| ==> order[i] < |calls|) && c !in order
    ensures Run(calls, Start(calls), events).stream == AtomicRun(calls, EMPTY, order)
  {
    StartIsUnmixed(calls);
    order := RunRefinesAtomicPublishes(calls, Start(calls), events);
  }

  lemma StartIsUnmixed(calls: seq<Call>)
    ensures Unmixed(calls, Start(calls))
  {
  }

  /** The distinct ids are needed: two calls that share one can commit half of each. */
  lemma SharedIdMixesCalls(a1: FencedMsg, a2: FencedMsg, b1: FencedMsg, b2: FencedMsg)
    requires a1.expectLastSeq == a2.expectLastSeq == b1.expectLastSeq == b2.expectLastSeq == 0
    requires a1.subject != b2.subject
    ensures var calls := [Call("id", [a1, a2]), Call("id", [b1, b2])];
            Run(calls, Start(calls), [Arrive(0), Lose(1), Arrive(1)]).stream == StoreAll(EMPTY, [a1, b2])
  {
  }
}
