/** Streaming an object's chunks to a caller: each Read hands over what is left of the last chunk,
    or pulls and checks one more. */
module ChunkReader {
  import opened Storage

  type uint32 = x: int | 0 <= x < 0x1_0000_0000

  const DIGEST_BYTES := 32

  datatype Message = Message(subject: string, stream: string, seqno: uint64, pending: uint64, data: seq<byte>)

  datatype Interruption = ReaderClosed | CallerDone | TransportError

  /** What one pull brings: a message, a message without readable metadata, or no message. */
  datatype Arrival = Delivered(msg: Message) | NoMetadata | Interrupted(why: Interruption)

  datatype ReadError = EndOfFile | IntegrityError | DigestMismatch | MetadataError | Stopped(why: Interruption)

  /** What the object's metadata declares; `hash` stands for the digest function. */
  datatype Declared = Declared(
    subject: string, stream: string, chunks: uint32, size: uint64, digest: seq<byte>, hash: seq<byte> -> seq<byte>)

  // ---- what the arrivals amount to, whatever the buffer sizes --------------

  datatype Verdict = Verdict(content: seq<byte>, error: ReadError)

  /** A pull that is never answered times out. */
  function Pull(arrivals: seq<Arrival>, k: nat): Arrival {
    if k < |arrivals| then arrivals[k] else Interrupted(TransportError)
  }

  /** The arrival is the k-th chunk: on the object's subject, beyond the previous one, with exactly the
      remaining chunks pending. */
  predicate InOrder(d: Declared, a: Arrival, k: nat, last: uint64) {
    && a.Delivered? && a.msg.subject == d.subject && a.msg.stream == d.stream
    && last < a.msg.seqno && a.msg.pending == d.chunks - k - 1
  }

  /** Why an arrival that is not an acceptable chunk ends the stream. */
  function Fault(a: Arrival): ReadError {
    match a
    case Delivered(_) => IntegrityError
    case NoMetadata => MetadataError
    case Interrupted(why) => Stopped(why)
  }

  function Ending(d: Declared, content: seq<byte>): ReadError {
    if |content| != d.size then IntegrityError
    else if d.hash(content) != d.digest then DigestMismatch
    else EndOfFile
  }

  /** The bytes that will be handed over, and how the stream ends, once k chunks were accepted. */
  function Judge(d: Declared, arrivals: seq<Arrival>, k: nat, last: uint64, content: seq<byte>): (v: Verdict)
    requires k <= d.chunks
    ensures content <= v.content
    ensures v.error == EndOfFile ==> |v.content| == d.size && d.hash(v.content) == d.digest
    decreases d.chunks - k
  {
    var a := Pull(arrivals, k);
    if k == d.chunks then Verdict(content, Ending(d, content))
    else if InOrder(d, a, k, last) && |content| + |a.msg.data| <= d.size
    then Judge(d, arrivals, k + 1, a.msg.seqno, content + a.msg.data)
    else Verdict(content, Fault(a))
  }

  lemma JudgeUnfolds(d: Declared, arrivals: seq<Arrival>, k: nat, last: uint64, content: seq<byte>)
    requires k < d.chunks
    ensures var a := Pull(arrivals, k);
            Judge(d, arrivals, k, last, content) ==
            if InOrder(d, a, k, last) && |content| + |a.msg.data| <= d.size
            then Judge(d, arrivals, k + 1, a.msg.seqno, content + a.msg.data)
            else Verdict(content, Fault(a))
  {
  }

  // ---- the reader ----------------------------------------------------------

  class ObjectChunkReader {
    const declared: Declared
    const arrivals: seq<Arrival>
    var hashed: seq<byte>
    var chunk: seq<byte>
    var offset: nat
    var chunks: uint32
    var size: uint64
    var lastStreamSeq: uint64
    var complete: bool
    var terminal: Option<ReadError>
    var stopped: bool
    var closed: bool
    /** Every byte Read has returned so far. */
    ghost var delivered: seq<byte>

    constructor (declared: Declared, arrivals: seq<Arrival>)
      requires declared.chunks == 0 <==> declared.size == 0
      ensures Valid() && this.declared == declared && this.arrivals == arrivals
      ensures delivered == [] && terminal == None && !closed && !stopped
    {
      this.declared, this.arrivals := declared, arrivals;
      hashed, chunk, offset, delivered := [], [], 0, [];
      chunks, size, lastStreamSeq := 0, 0, 0;
      complete, terminal, stopped, closed := false, None, false, false;
    }

    /** The bytes handed over and those still in the chunk are exactly the accepted chunks; the counters
        agree with them; and the future is the one the arrivals decided from the start. */
    ghost predicate Valid() reads this {
      && offset <= |chunk| && chunks <= declared.chunks
      && hashed == delivered + chunk[offset..]
      && size == |hashed| <= declared.size
      && complete == (0 < chunks == declared.chunks)
      && (terminal.None? ==> WholeVerdict() == Judge(declared, arrivals, chunks, lastStreamSeq, hashed))
      && (terminal.Some? ==> stopped && offset == |chunk| && WholeVerdict() == Verdict(delivered, terminal.value))
    }

    ghost function WholeVerdict(): Verdict reads this { Judge(declared, arrivals, 0, 0, []) }

    /** Nothing is left of the last chunk, so the next Read must pull or finish. */
    predicate Drained() reads this { offset == |chunk| }

    method Read(p: array<byte>) returns (n: nat, err: Option<ReadError>)
      requires Valid()
      modifies this, p
      ensures Valid() && n <= p.Length && p[n..] == old(p[n..])
      ensures delivered == old(delivered) + p[..n]
      ensures old(closed) ==> n == 0 && err == Some(Stopped(ReaderClosed)) && terminal == old(terminal) && closed
      ensures !old(closed) && old(terminal).Some? ==> n == 0 && err == terminal == old(terminal)
      ensures !old(closed) && old(terminal).None? ==> err == terminal
      ensures err.Some? ==> n == 0
      // Without an error a Read makes progress: bytes, or a further chunk (which may be empty).
      ensures err.None? && p.Length != 0 ==> 0 < n || chunks == old(chunks) + 1
      // The verdict is reached no later than the arrivals call for.
      ensures !old(closed) && old(terminal).None? && old(Drained()) && p.Length != 0 && old(chunks) == declared.chunks
              ==> err == Some(Ending(declared, delivered))
      // End-of-file, a wrong size and a wrong digest, exactly when.
      ensures !old(closed) && old(terminal).None? && old(Drained()) && p.Length != 0 && old(chunks) == declared.chunks ==>
                && (err == Some(IntegrityError) <==> |delivered| != declared.size)
                && (err == Some(DigestMismatch) <==> |delivered| == declared.size && declared.hash(delivered) != declared.digest)
                && (err == Some(EndOfFile) <==> |delivered| == declared.size && declared.hash(delivered) == declared.digest)
      ensures closed <==> old(closed) || (old(terminal).None? && err == Some(Stopped(ReaderClosed)))
    {
      hide Judge;
      n, err := 0, None;
      if closed { return 0, Some(Stopped(ReaderClosed)); }
      if terminal.Some? { return 0, terminal; }
      if p.Length == 0 { return; }
      if offset < |chunk| {
        n := Copy(p);
        return;
      }
      assert hashed == delivered;
      if complete || declared.chunks == 0 {
        err := Finish();
        return;
      }
      err := Accept();
      if err.Some? { return; }
      n := Copy(p);
    }

    /** Pulls the next message and takes it as the current chunk, or fails. */
    method Accept() returns (err: Option<ReadError>)
      requires Valid() && terminal.None? && Drained() && chunks != declared.chunks && !closed
      modifies this`hashed, this`chunk, this`offset, this`chunks, this`size, this`lastStreamSeq, this`complete,
               this`terminal, this`stopped, this`closed
      ensures Valid() && delivered == old(delivered) && err == terminal
      ensures err.None? ==> chunks == old(chunks) + 1 && offset == 0 && chunk == Data(Pull(arrivals, old(chunks)))
      ensures closed <==> err == Some(Stopped(ReaderClosed))
      // The next message is refused for what it is, or taken.
      ensures match Pull(arrivals, old(chunks))
              case Interrupted(why) => err == Some(Stopped(why))
              case NoMetadata => err == Some(MetadataError)
              case Delivered(msg) =>
                err == (if && msg.subject == declared.subject && msg.stream == declared.stream && old(lastStreamSeq) < msg.seqno
                           && msg.pending == declared.chunks - old(chunks) - 1 && |msg.data| <= declared.size - old(size)
                        then None else Some(IntegrityError))
      ensures err.None? ==> size == old(size) + |chunk| && lastStreamSeq == Pull(arrivals, old(chunks)).msg.seqno
    {
      hide Judge;
      assert hashed == delivered;
      var arrival := Pull(arrivals, chunks);
      JudgeUnfolds(declared, arrivals, chunks, lastStreamSeq, hashed);
      if arrival.Interrupted? {
        closed := arrival.why == ReaderClosed;
        err := Fail(Stopped(arrival.why));
        return;
      }
      if arrival.NoMetadata? {
        err := Fail(MetadataError);
        return;
      }
      var msg := arrival.msg;
      var nextChunk: uint32 := chunks + 1;
      var wantPending: uint64 := declared.chunks - nextChunk;
      if msg.subject != declared.subject || msg.stream != declared.stream || msg.seqno <= lastStreamSeq || msg.pending != wantPending {
        err := Fail(IntegrityError);
        return;
      }
      var room: uint64 := declared.size - size;
      if |msg.data| > room {
        err := Fail(IntegrityError);
        return;
      }
      hashed := hashed + msg.data;
      chunk, offset := msg.data, 0;
      chunks, size, lastStreamSeq := nextChunk, size + |msg.data|, msg.seqno;
      complete := chunks == declared.chunks;
      err := None;
    }

    /** Hands over as much of the rest of the chunk as fits. */
    method Copy(p: array<byte>) returns (n: nat)
      requires Valid() && terminal.None?
      modifies this`offset, this`delivered, p
      ensures Valid() && n <= p.Length && p[n..] == old(p[n..])
      ensures delivered == old(delivered) + p[..n]
      ensures n == if p.Length <= |chunk| - old(offset) then p.Length else |chunk| - old(offset)
    {
      n := if p.Length <= |chunk| - offset then p.Length else |chunk| - offset;
      forall i | 0 <= i < n {
        p[i] := chunk[offset + i];
      }
      assert p[..n] == chunk[offset..offset + n];
      assert chunk[offset..] == chunk[offset..offset + n] + chunk[offset + n..];
      delivered := delivered + p[..n];
      offset := offset + n;
    }

    method Finish() returns (err: Option<ReadError>)
      requires Valid() && terminal.None? && Drained() && chunks == declared.chunks
      modifies this`terminal, this`stopped
      ensures Valid() && err == terminal == Some(Ending(declared, delivered))
    {
      assert hashed == delivered;
      if chunks != declared.chunks || size != declared.size {
        err := Fail(IntegrityError);
        return;
      }
      if declared.hash(hashed) != declared.digest {
        err := Fail(DigestMismatch);
        return;
      }
      terminal, stopped := Some(EndOfFile), true;
      err := terminal;
    }

    /** Every failure is remembered; it is the one the arrivals decided. */
    method Fail(why: ReadError) returns (err: Option<ReadError>)
      requires Valid() && terminal.None? && Drained() && WholeVerdict() == Verdict(delivered, why)
      modifies this`terminal, this`stopped
      ensures Valid() && err == terminal == Some(why)
    {
      terminal, stopped := Some(why), true;
      err := terminal;
    }

    method Close()
      requires Valid()
      modifies this`closed, this`stopped
      ensures Valid() && closed && stopped
    {
      closed, stopped := true, true;
    }
  }

  /** Opens a reader, refusing metadata that cannot describe an object. */
  method Open(d: Declared, validId: bool, arrivals: seq<Arrival>) returns (r: ObjectChunkReader?)
    ensures r != null <==> |d.digest| == DIGEST_BYTES && (if d.chunks == 0 then d.size == 0 else d.size != 0 && validId)
    ensures r != null ==> fresh(r) && r.Valid() && r.declared == d && r.arrivals == arrivals && r.delivered == [] && r.terminal == None
  {
    r := null;
    if |d.digest| != DIGEST_BYTES { return; }
    if d.chunks == 0 {
      if d.size != 0 { return; }
    } else if d.size == 0 || !validId {
      return;
    }
    r := new ObjectChunkReader(d, arrivals);
  }

  // ---- what a verdict means ------------------------------------------------

  function Data(a: Arrival): seq<byte> { if a.Delivered? then a.msg.data else [] }

  /** The first n arrivals' bytes, in order, each once. */
  function Joined(arrivals: seq<Arrival>, n: nat): seq<byte> {
    if n == 0 then [] else Joined(arrivals, n - 1) + Data(Pull(arrivals, n - 1))
  }

  function Seqno(arrivals: seq<Arrival>, n: nat): uint64 {
    if n == 0 || !Pull(arrivals, n - 1).Delivered? then 0 else Pull(arrivals, n - 1).msg.seqno
  }

  /** The arrivals are the declared object: exactly its chunks in order, its size, its digest. */
  predicate Genuine(d: Declared, arrivals: seq<Arrival>) {
    && (forall k :: 0 <= k < d.chunks ==> InOrder(d, Pull(arrivals, k), k, Seqno(arrivals, k)))
    && |Joined(arrivals, d.chunks)| == d.size
    && d.hash(Joined(arrivals, d.chunks)) == d.digest
  }

  /** The stream ends in end-of-file if and only if what arrived is the declared object, and then the
      bytes handed over are that object's. */
  lemma EndOfFileIff(d: Declared, arrivals: seq<Arrival>)
    ensures var v := Judge(d, arrivals, 0, 0, []);
            && (v.error == EndOfFile <==> Genuine(d, arrivals))
            && (v.error == EndOfFile ==> v.content == Joined(arrivals, d.chunks))
  {
    JudgeFrom(d, arrivals, 0);
  }

  lemma {:induction false} JudgeFrom(d: Declared, arrivals: seq<Arrival>, k: nat)
    requires k <= d.chunks
    requires forall j :: 0 <= j < k ==> InOrder(d, Pull(arrivals, j), j, Seqno(arrivals, j))
    ensures var v := Judge(d, arrivals, k, Seqno(arrivals, k), Joined(arrivals, k));
            && (v.error == EndOfFile <==> Genuine(d, arrivals))
            && (v.error == EndOfFile ==> v.content == Joined(arrivals, d.chunks))
    decreases d.chunks - k
  {
    hide Judge, InOrder;
    if k < d.chunks {
      JudgeUnfolds(d, arrivals, k, Seqno(arrivals, k), Joined(arrivals, k));
      JoinedGrows(arrivals, k + 1, d.chunks);
      if InOrder(d, Pull(arrivals, k), k, Seqno(arrivals, k)) {
        DeliveredInOrder(d, arrivals, k);
        if |Joined(arrivals, k + 1)| <= d.size { JudgeFrom(d, arrivals, k + 1); }
      }
    } else {
      JudgeEnds(d, arrivals, Seqno(arrivals, k), Joined(arrivals, k));
    }
  }

  lemma JudgeEnds(d: Declared, arrivals: seq<Arrival>, last: uint64, content: seq<byte>)
    ensures Judge(d, arrivals, d.chunks, last, content) == Verdict(content, Ending(d, content))
  {
  }

  lemma DeliveredInOrder(d: Declared, arrivals: seq<Arrival>, k: nat)
    requires k < d.chunks && InOrder(d, Pull(arrivals, k), k, Seqno(arrivals, k))
    ensures var a := Pull(arrivals, k);
            a.Delivered? && Seqno(arrivals, k + 1) == a.msg.seqno && Joined(arrivals, k + 1) == Joined(arrivals, k) + a.msg.data
  {
  }

  lemma {:induction false} JoinedGrows(arrivals: seq<Arrival>, k: nat, n: nat)
    requires k <= n
    ensures |Joined(arrivals, k)| <= |Joined(arrivals, n)|
  {
    if k < n { JoinedGrows(arrivals, k, n - 1); }
  }

  /** However the caller sizes its buffers, two readers of the same arrivals that have both ended ended
      the same way and handed over the same bytes; one that has not ended is a prefix of the other. */
  lemma BufferSizesDoNotMatter(r: ObjectChunkReader, other: ObjectChunkReader)
    requires r.Valid() && other.Valid() && r.declared == other.declared && r.arrivals == other.arrivals
    requires r.terminal.Some?
    ensures other.delivered <= r.delivered
    ensures other.terminal.Some? ==> other.terminal == r.terminal && other.delivered == r.delivered
  {
  }

  /** A reader that has reported end-of-file has handed over the declared object. */
  lemma EndOfFileIsGenuine(r: ObjectChunkReader)
    requires r.Valid() && r.terminal == Some(EndOfFile)
    ensures Genuine(r.declared, r.arrivals) && r.delivered == Joined(r.arrivals, r.declared.chunks)
    ensures |r.delivered| == r.declared.size && r.declared.hash(r.delivered) == r.declared.digest
  {
    EndOfFileIff(r.declared, r.arrivals);
  }
}
