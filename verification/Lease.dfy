/** Leases over one compare-and-swap entry per name. The entry's history is the list of
    its writes, a write's revision is its place in that list, and all parties read one
    clock that never goes back. The bucket never reaps an entry. */
module Lease {
  import opened Storage

  datatype Kind = Creation | Takeover | Renewal | Relinquishment

  /** One stored version of the entry. `time` is when the server took the write. */
  datatype Write = Write(kind: Kind, epoch: uint64, holder: nat, expiresAt: int, time: int)

  predicate Grants(w: Write) {
    w.kind == Creation || w.kind == Takeover
  }

  function NextEpoch(epoch: uint64): uint64 {
    if epoch == MAX_UINT64 then 0 else epoch + 1
  }

  /** What the code of any lease may put after prev. */
  predicate LegalAfter(prev: Option<Write>, w: Write) {
    match w.kind
    case Creation => prev.None? && w.epoch == 1
    case Takeover =>
      prev.Some? && prev.value.expiresAt <= w.time && prev.value.time <= w.time && w.epoch == NextEpoch(prev.value.epoch)
    case Renewal =>
      && prev.Some? && prev.value.time <= w.time && w.epoch == prev.value.epoch && w.holder == prev.value.holder
      && prev.value.kind != Relinquishment && prev.value.expiresAt <= w.expiresAt
    case Relinquishment =>
      && prev.Some? && prev.value.time <= w.time && w.epoch == prev.value.epoch && w.holder == prev.value.holder
      && prev.value.kind != Relinquishment && w.expiresAt <= w.time
  }

  function Last(log: seq<Write>): Option<Write> {
    if log == [] then None else Some(log[|log| - 1])
  }

  function Prev(log: seq<Write>, i: nat): Option<Write>
    requires i < |log|
  {
    if i == 0 then None else Some(log[i - 1])
  }

  ghost predicate Legal(log: seq<Write>) {
    forall i {:trigger Prev(log, i)} :: 0 <= i < |log| ==> LegalAfter(Prev(log, i), log[i])
  }

  ghost predicate Released(log: seq<Write>, holder: nat) {
    exists i :: 0 <= i < |log| && log[i].holder == holder && log[i].kind == Relinquishment
  }

  // ---- safety over whole histories -----------------------------------------

  /** No epoch was ever taken over at the top of its range. */
  ghost predicate NoWrap(log: seq<Write>) {
    forall i :: 0 < i < |log| && log[i].kind == Takeover ==> log[i - 1].epoch < MAX_UINT64
  }

  ghost predicate EpochsNondecreasing(log: seq<Write>) {
    forall i, j :: 0 <= i < j < |log| ==> log[i].epoch <= log[j].epoch
  }

  lemma {:induction false} EpochsClimb(log: seq<Write>, i: nat, j: nat)
    requires Legal(log) && NoWrap(log) && i < j < |log|
    ensures log[i].epoch <= log[j].epoch
    ensures Grants(log[j]) ==> log[i].epoch < log[j].epoch
    ensures log[i].time <= log[j].time
    decreases j
  {
    assert LegalAfter(Prev(log, j), log[j]);
    if i < j - 1 { EpochsClimb(log, i, j - 1); }
  }

  /** Stored epochs never decrease exactly as long as none is taken over at 2^64-1. */
  lemma EpochsNondecreasingIff(log: seq<Write>)
    requires Legal(log)
    ensures EpochsNondecreasing(log) <==> NoWrap(log)
  {
    if NoWrap(log) {
      forall i, j | 0 <= i < j < |log| ensures log[i].epoch <= log[j].epoch { EpochsClimb(log, i, j); }
    } else {
      var i :| 0 < i < |log| && log[i].kind == Takeover && !(log[i - 1].epoch < MAX_UINT64);
      assert LegalAfter(Prev(log, i), log[i]);
    }
  }

  /** Every grant out-ranks every earlier write, so every earlier grant. */
  lemma GrantOutranks(log: seq<Write>, k: nat)
    requires Legal(log) && NoWrap(log) && k < |log| && Grants(log[k])
    ensures forall i :: 0 <= i < k ==> log[i].epoch < log[k].epoch
  {
    forall i | 0 <= i < k ensures log[i].epoch < log[k].epoch { EpochsClimb(log, i, k); }
  }

  /** Until its holder relinquishes it, an epoch stays current, its expiry only moves on, and nothing
      can replace it before that expiry. */
  lemma {:induction false} CurrentUntilExpiry(log: seq<Write>, i: nat, j: nat)
    requires Legal(log) && i <= j < |log|
    requires log[i].kind != Relinquishment && !Released(log, log[i].holder)
    ensures (log[j].epoch == log[i].epoch && log[j].holder == log[i].holder && log[i].expiresAt <= log[j].expiresAt
             && log[j].kind != Relinquishment)
            || log[i].expiresAt <= log[j].time
    decreases j
  {
    if i < j {
      CurrentUntilExpiry(log, i, j - 1);
      assert LegalAfter(Prev(log, j), log[j]);
    }
  }

  /** Main result on leases: while the clock is before the validity of an unreleased lease's write,
      that lease's epoch is the stored one; no other grant has succeeded after it. */
  lemma HolderIsSole(log: seq<Write>, i: nat, now: int)
    requires Legal(log) && i < |log| && log[i].kind != Relinquishment && !Released(log, log[i].holder)
    requires log[|log| - 1].time <= now < log[i].expiresAt
    ensures log[|log| - 1].epoch == log[i].epoch && log[|log| - 1].holder == log[i].holder
    ensures forall j :: i < j < |log| ==> !Grants(log[j])
  {
    CurrentUntilExpiry(log, i, |log| - 1);
    forall j | i < j < |log| ensures !Grants(log[j]) {
      assert LegalAfter(Prev(log, j), log[j]);
      CurrentUntilExpiry(log, i, j - 1);
      TimesClimb(log, j, |log| - 1);
    }
  }

  lemma {:induction false} TimesClimb(log: seq<Write>, i: nat, j: nat)
    requires Legal(log) && i <= j < |log|
    ensures log[i].time <= log[j].time
    decreases j
  {
    if i < j {
      assert LegalAfter(Prev(log, j), log[j]);
      TimesClimb(log, i, j - 1);
    }
  }

  lemma LegalPush(log: seq<Write>, w: Write)
    requires Legal(log) && LegalAfter(Last(log), w)
    ensures Legal(log + [w])
  {
    var next := log + [w];
    forall i | 0 <= i < |next| ensures LegalAfter(Prev(next, i), next[i]) {
      if i < |log| { assert Prev(next, i) == Prev(log, i); }
    }
  }

  /** Every epoch is reached by some history: each lease expires and is taken over. */
  lemma {:induction false} EpochIsReached(n: uint64) returns (log: seq<Write>)
    requires 1 <= n
    ensures Legal(log) && log != [] && log[|log| - 1] == Write(log[|log| - 1].kind, n, 0, 0, 0)
  {
    if n == 1 {
      LegalPush([], Write(Creation, 1, 0, 0, 0));
      return [] + [Write(Creation, 1, 0, 0, 0)];
    }
    var front := EpochIsReached(n - 1);
    LegalPush(front, Write(Takeover, n, 0, 0, 0));
    log := front + [Write(Takeover, n, 0, 0, 0)];
  }

  /** So the wrap does happen: one takeover more starts again at epoch zero. */
  lemma EpochsCanWrap()
    ensures exists log :: Legal(log) && !NoWrap(log) && !EpochsNondecreasing(log)
  {
    var front := EpochIsReached(MAX_UINT64);
    LegalPush(front, Write(Takeover, 0, 0, 0, 0));
    var log := front + [Write(Takeover, 0, 0, 0, 0)];
    assert log[|front|].epoch == 0 && log[|front| - 1].epoch == MAX_UINT64;
    assert Legal(log);
  }

  // ---- the entry under contention ------------------------------------------

  datatype Fate = Deliver | Lose(reached: bool)

  datatype Event = Tick(span: nat) | Put(w: Write)

  datatype Turn = Turn(events: seq<Event>, fate: Fate)

  datatype Reply = Revision(rev: nat) | CasConflict | Transient

  /** log grew without holder's own doing, save that a renewal it once sent may arrive late. */
  ghost predicate GrewAround(before: seq<Write>, log: seq<Write>, holder: nat) {
    before <= log && forall i :: |before| <= i < |log| && log[i].holder == holder ==> log[i].kind == Renewal
  }

  class Entry {
    var stored: Option<Write>
    var rev: nat
    var now: int
    var turns: seq<Turn>
    /** How the requests so far went. */
    var fates: seq<Fate>
    ghost var log: seq<Write>

    constructor (now: int, turns: seq<Turn>)
      ensures Valid() && log == []
    {
      stored, rev, log, fates := None, 0, [], [];
      this.now, this.turns := now, turns;
    }

    ghost predicate Valid() reads this {
      && Legal(log) && stored == Last(log) && rev == |log|
      && (log != [] ==> log[|log| - 1].time <= now)
    }

    /** Nobody else acts, no time passes and nothing goes wrong. */
    predicate Quiet() reads this { turns == [] }

    /** Time passes and other parties write whatever their own code may write. */
    method Interfere(holder: nat) returns (fate: Fate)
      requires Valid()
      modifies this
      ensures Valid() && old(now) <= now && GrewAround(old(log), log, holder)
      ensures fates == old(fates)
      ensures old(Quiet()) ==> Quiet() && log == old(log) && now == old(now) && fate.Deliver?
    {
      if turns == [] { return Deliver; }
      var turn := turns[0];
      turns := turns[1..];
      for i := 0 to |turn.events|
        invariant Valid() && old(now) <= now && GrewAround(old(log), log, holder) && fates == old(fates)
      {
        match turn.events[i]
        case Tick(span) => now := now + span;
        case Put(w) =>
          var foreign := w.holder != holder || (w.kind == Renewal && stored.Some? && stored.value.holder == holder);
          if foreign && w.time == now && LegalAfter(stored, w) {
            Append(w);
          }
      }
      fate := turn.fate;
    }

    method Append(w: Write)
      requires Valid() && w.time == now && LegalAfter(stored, w)
      modifies this`stored, this`rev, this`log
      ensures Valid() && log == old(log) + [w]
    {
      LegalPush(log, w);
      stored, rev, log := Some(w), rev + 1, log + [w];
    }

    method Get(holder: nat) returns (value: Option<Write>, at: nat, failed: bool)
      requires Valid()
      modifies this
      ensures Valid() && old(now) <= now && GrewAround(old(log), log, holder)
      ensures !failed ==> value == Last(log) && at == |log|
      ensures |fates| == |old(fates)| + 1 && old(fates) <= fates && (failed <==> !fates[|old(fates)|].Deliver?)
      ensures old(Quiet()) ==> Quiet() && log == old(log) && now == old(now) && !failed
    {
      var fate := Interfere(holder);
      fates := fates + [fate];
      value, at, failed := stored, rev, !fate.Deliver?;
    }

    /** Writes w over revision expected; expected zero is create-if-absent. `before` is the history
        when the request reached the server, and the server stamps the write with its own time. */
    method CompareAndSwap(w: Write, expected: nat) returns (reply: Reply, ghost before: seq<Write>)
      requires Valid()
      requires LegalAlways(log, w, expected, now)
      modifies this
      ensures Valid() && old(now) <= now && GrewAround(old(log), before, w.holder)
      ensures log == before || (|before| == expected && |log| == |before| + 1 && before < log
                                && log[expected] == w.(time := log[expected].time))
      ensures reply.Revision? ==> reply.rev == expected + 1 == |log| && before < log
      ensures reply.CasConflict? ==> log == before && |before| != expected
      ensures |fates| == |old(fates)| + 1 && old(fates) <= fates && (reply.Transient? <==> !fates[|old(fates)|].Deliver?)
      ensures old(Quiet()) ==> Quiet() && before == old(log) && now == old(now) && !reply.Transient?
    {
      var fate := Interfere(w.holder);
      fates := fates + [fate];
      before := log;
      var matches := rev == expected;
      if matches && (fate.Deliver? || fate.reached) {
        StaysLegal(old(log), log, w, expected, old(now), now);
        Append(w.(time := now));
      }
      reply := if !fate.Deliver? then Transient else if matches then Revision(rev) else CasConflict;
    }
  }

  /** A request that is legal over the revision it names, now or at any later time. */
  ghost predicate LegalAlways(log: seq<Write>, w: Write, expected: nat, now: int) {
    expected <= |log| &&
    forall time :: now <= time ==> LegalAfter(Last(log[..expected]), w.(time := time))
  }

  /** Requests outlive the read they were built from, even when they arrive late: if the revision
      still matches, the entry is still the one that was read. */
  lemma StaysLegal(early: seq<Write>, later: seq<Write>, w: Write, expected: nat, built: int, now: int)
    requires early <= later && LegalAlways(early, w, expected, built) && built <= now && |later| == expected
    ensures LegalAfter(Last(later), w.(time := now))
  {
  }

  // ---- acquiring, renewing, releasing --------------------------------------

  datatype AcquireOutcome = Granted(lease: KvLease) | Held(holderEpoch: uint64) | AcquireFailed

  /** Fences a new epoch into the entry: absent, create at 1; expired, take over at the next epoch;
      live, refuse. An unclear reply never grants. */
  method Acquire(entry: Entry, holder: nat, ttl: nat) returns (out: AcquireOutcome)
    requires entry.Valid() && 0 < ttl
    requires forall i :: 0 <= i < |entry.log| ==> entry.log[i].holder != holder
    modifies entry
    ensures entry.Valid() && old(entry.log) <= entry.log
    // A grant is a write of this holder that creates or takes over the entry, still on record.
    ensures out.Granted? ==>
              && fresh(out.lease) && out.lease.Backed(entry.log, entry.now) && !out.lease.released
              && out.lease.holder == holder && out.lease.ttl == ttl
              && Grants(entry.log[out.lease.rev - 1])
    // A refusal wrote nothing.
    ensures out.Held? ==> forall i :: 0 <= i < |entry.log| && entry.log[i].holder == holder ==> entry.log[i].kind == Renewal
    // A grant is good for at least a ttl from the call, by the entry's own expiry.
    ensures out.Granted? ==>
              old(entry.now) + ttl <= out.lease.validUntil && entry.log[out.lease.rev - 1].expiresAt == out.lease.validUntil
    // Failing needs a request that went unanswered.
    ensures out.AcquireFailed? ==> exists i :: |old(entry.fates)| <= i < |entry.fates| && !entry.fates[i].Deliver?
    ensures |old(entry.fates)| < |entry.fates| && (!entry.fates[|old(entry.fates)|].Deliver? ==> out.AcquireFailed?)
    // A refusal names an epoch that was really held.
    ensures out.Held? ==> exists i :: 0 <= i < |entry.log| && entry.log[i].epoch == out.holderEpoch
    // Undisturbed, an absent entry is created at epoch 1, an expired one taken over, a live one left alone.
    ensures old(entry.Quiet()) ==>
              && (out.Granted? ==> out.lease.validUntil == old(entry.now) + ttl)
              && match old(entry.stored)
                 case None => out.Granted? && out.lease.epoch == 1
                 case Some(w) =>
                   if w.expiresAt <= old(entry.now)
                   then out.Granted? && out.lease.epoch == (if w.epoch == MAX_UINT64 then 0 else w.epoch + 1)
                   else out == Held(w.epoch) && entry.log == old(entry.log)
  {
    var value, rev, failed := entry.Get(holder);
    if failed { return AcquireFailed; }
    // The clock moves on between the read and the expiry check, and again before the write is built.
    var _ := entry.Interfere(holder);
    if value.None? {
      out := Fence(entry, holder, ttl, Creation, 1, 0);
      if out.Held? { FirstEpoch(entry.log); }
    } else if !(value.value.expiresAt <= entry.now) {
      out := Held(value.value.epoch);
    } else {
      out := Fence(entry, holder, ttl, Takeover, NextEpoch(value.value.epoch), rev);
    }
  }

  lemma FirstEpoch(log: seq<Write>)
    requires Legal(log) && log != []
    ensures log[0].epoch == 1
  {
    assert Prev(log, 0) == None;
  }

  /** The compare-and-swap both paths of Acquire share. */
  method Fence(entry: Entry, holder: nat, ttl: nat, kind: Kind, epoch: uint64, expected: nat) returns (out: AcquireOutcome)
    requires entry.Valid() && 0 < ttl
    requires kind == Creation || kind == Takeover
    requires LegalAlways(entry.log, Write(kind, epoch, holder, 0, 0), expected, entry.now)
    requires forall i :: 0 <= i < |entry.log| && entry.log[i].holder == holder ==> entry.log[i].kind == Renewal
    modifies entry
    ensures entry.Valid() && old(entry.log) <= entry.log
    ensures out.Granted? ==>
              && fresh(out.lease) && out.lease.Backed(entry.log, entry.now) && !out.lease.released
              && out.lease.holder == holder && out.lease.ttl == ttl
              && Grants(entry.log[out.lease.rev - 1])
    ensures out.Held? ==> forall i :: 0 <= i < |entry.log| && entry.log[i].holder == holder ==> entry.log[i].kind == Renewal
    ensures out.Granted? ==>
              && out.lease.epoch == epoch && old(entry.now) + ttl <= out.lease.validUntil
              && entry.log[out.lease.rev - 1].expiresAt == out.lease.validUntil
    // A lost race names the epoch that must have won it.
    ensures out.Held? && kind == Creation ==> out.holderEpoch == epoch
    ensures out.Held? && kind == Takeover ==> out.holderEpoch == (if epoch == 0 then MAX_UINT64 else epoch - 1)
    ensures out.Held? ==> |entry.log| != expected
    ensures |entry.fates| == |old(entry.fates)| + 1 && old(entry.fates) <= entry.fates
    ensures out.AcquireFailed? <==> !entry.fates[|old(entry.fates)|].Deliver?
    ensures old(entry.Quiet()) && |old(entry.log)| == expected ==>
              out.Granted? && out.lease.validUntil == old(entry.now) + ttl
  {
    ghost var checked := entry.log;
    var _ := entry.Interfere(holder);
    var expiresAt := entry.now + ttl;
    assert entry.log[..expected] == checked[..expected];
    forall time | entry.now <= time
      ensures LegalAfter(Last(entry.log[..expected]), Write(kind, epoch, holder, expiresAt, 0).(time := time))
    {
      assert LegalAfter(Last(entry.log[..expected]), Write(kind, epoch, holder, 0, 0).(time := time));
    }
    var reply, before := entry.CompareAndSwap(Write(kind, epoch, holder, expiresAt, 0), expected);
    match reply
    case Revision(at) =>
      var lease := new KvLease(holder, epoch, ttl, at, expiresAt);
      out := Granted(lease);
    case CasConflict =>
      out := Held(if kind == Creation then epoch else if epoch == 0 then MAX_UINT64 else epoch - 1);
    case Transient =>
      out := AcquireFailed;
  }

  class KvLease {
    const holder: nat
    const epoch: uint64
    const ttl: nat
    var rev: nat
    var validUntil: int
    var released: bool
    var lost: bool

    constructor (holder: nat, epoch: uint64, ttl: nat, rev: nat, validUntil: int)
      ensures this.holder == holder && this.epoch == epoch && this.ttl == ttl
      ensures this.rev == rev && this.validUntil == validUntil && !released && !lost
    {
      this.holder, this.epoch, this.ttl := holder, epoch, ttl;
      this.rev, this.validUntil, this.released, this.lost := rev, validUntil, false, false;
    }

    /** The lease rests on a write of its own that the entry's history still shows. */
    ghost predicate Backed(log: seq<Write>, now: int) reads this {
      && 1 <= rev <= |log|
      && log[rev - 1].holder == holder && log[rev - 1].epoch == epoch
      && log[rev - 1].kind != Relinquishment
      && validUntil == log[rev - 1].expiresAt <= now + ttl
      && (!released ==> !Released(log, holder))
    }

    /** Whatever others do, and however late an old renewal lands, the lease stays backed ... */
    lemma StaysBacked(before: seq<Write>, log: seq<Write>, then': int, now: int)
      requires Backed(before, then') && GrewAround(before, log, holder) && then' <= now
      ensures Backed(log, now)
    {
    }

    /** ... and so, by the clock, its holder is the sole owner until validUntil. */
    lemma OwnsUntilValid(log: seq<Write>, now: int)
      requires Backed(log, now) && Legal(log) && !released && log[|log| - 1].time <= now < validUntil
      ensures log[|log| - 1].epoch == epoch && log[|log| - 1].holder == holder
      ensures forall j :: rev <= j < |log| ==> !Grants(log[j])
    {
      HolderIsSole(log, rev - 1, now);
    }

    /** Pushes the expiry forward. False means surrender: the revision has moved, or the last write
        known to have landed has expired. A transient failure before that keeps the lease. */
    method Renew(entry: Entry) returns (kept: bool)
      requires entry.Valid() && Backed(entry.log, entry.now) && !released
      modifies entry, `rev, `validUntil
      ensures entry.Valid() && Backed(entry.log, entry.now) && old(entry.log) <= entry.log
      ensures old(validUntil) <= validUntil
      ensures !kept ==> rev == old(rev) && (old(rev) < |entry.log| || validUntil <= entry.now)
      ensures kept ==> (rev == |entry.log| == old(rev) + 1 && validUntil == old(entry.now) + ttl)
                       || (rev == old(rev) && entry.now < validUntil)
      ensures |entry.fates| == |old(entry.fates)| + 1 && old(entry.fates) <= entry.fates
      ensures entry.fates[|old(entry.fates)|].Deliver? ==> (kept <==> rev == old(rev) + 1)
      ensures old(entry.Quiet()) ==> entry.Quiet() && (kept <==> old(rev) == |old(entry.log)|)
      ensures old(entry.Quiet()) && kept ==> rev == |entry.log| == old(rev) + 1 && validUntil == entry.now + ttl && entry.now == old(entry.now)
    {
      TimesClimb(entry.log, rev - 1, |entry.log| - 1);
      var expiresAt := entry.now + ttl;
      var reply, before := entry.CompareAndSwap(Write(Renewal, epoch, holder, expiresAt, 0), rev);
      StaysBacked(old(entry.log), before, old(entry.now), entry.now);
      StaysBacked(before, entry.log, entry.now, entry.now);
      match reply
      case Revision(at) =>
        rev, validUntil := at, expiresAt;
        return true;
      case CasConflict =>
        return false;
      case Transient =>
        return entry.now < validUntil;
    }

    /** One round of the heartbeat: a surrendered lease is marked lost and the heartbeat ends. */
    method Heartbeat(entry: Entry, rounds: nat)
      requires entry.Valid() && Backed(entry.log, entry.now) && !released && !lost
      modifies entry, `rev, `validUntil, `lost
      ensures entry.Valid() && Backed(entry.log, entry.now) && old(entry.log) <= entry.log
      ensures lost ==> rev < |entry.log| || validUntil <= entry.now
      // A heartbeat that has not surrendered has renewed, or tried to, every round; undisturbed, each
      // round succeeds.
      ensures !lost ==> |entry.fates| == |old(entry.fates)| + rounds
      ensures lost ==> |old(entry.fates)| < |entry.fates| <= |old(entry.fates)| + rounds
      ensures old(entry.Quiet()) && old(rev) == |old(entry.log)| ==>
                !lost && rev == |entry.log| == old(rev) + rounds && (0 < rounds ==> validUntil == old(entry.now) + ttl)
      ensures old(entry.Quiet()) && old(rev) < |old(entry.log)| && 0 < rounds ==> lost
    {
      var beat := 0;
      while beat < rounds
        invariant beat <= rounds && |entry.fates| == |old(entry.fates)| + beat
        invariant old(entry.Quiet()) && old(rev) == |old(entry.log)| ==>
                    && entry.Quiet() && entry.now == old(entry.now) && rev == |entry.log| == old(rev) + beat
                    && (0 < beat ==> validUntil == old(entry.now) + ttl)
        invariant old(entry.Quiet()) && old(rev) < |old(entry.log)| ==> beat == 0 && entry.Quiet() && rev < |entry.log|
        invariant entry.Valid() && Backed(entry.log, entry.now) && old(entry.log) <= entry.log && !lost
      {
        var kept := Renew(entry);
        if !kept {
          lost := true;
          return;
        }
        beat := beat + 1;
      }
    }

    /** Relinquishes by expiring the entry in place, which keeps the epoch for the successor to
        exceed. A second call does nothing; a lost race is left to the winner. */
    method Release(entry: Entry) returns (ok: bool)
      requires entry.Valid() && Backed(entry.log, entry.now)
      modifies entry, `released, `lost
      ensures entry.Valid() && released && old(entry.log) <= entry.log
      ensures old(released) ==> ok && entry.log == old(entry.log) && lost == old(lost)
      ensures !old(released) ==> lost
      // Nothing but the expiry is given up: if the write landed, the epoch and the holder are unchanged.
      ensures !old(released) && Released(entry.log, holder) ==>
                |entry.log| == rev + 1 && entry.log[rev].epoch == epoch && entry.log[rev].holder == holder
                && entry.log[rev].expiresAt == old(entry.now) <= entry.now
      ensures !old(released) && ok ==> Released(entry.log, holder) || rev < |entry.log|
      ensures !ok ==> |old(entry.fates)| < |entry.fates| && !entry.fates[|old(entry.fates)|].Deliver?
      ensures old(entry.Quiet()) && !old(released) && rev == |old(entry.log)| ==>
                ok && entry.stored.Some? && entry.stored.value.expiresAt == old(entry.now) <= entry.now && entry.stored.value.epoch == epoch
    {
      if released { return true; }
      released, lost := true, true;
      TimesClimb(entry.log, rev - 1, |entry.log| - 1);
      var reply, before := entry.CompareAndSwap(Write(Relinquishment, epoch, holder, entry.now, 0), rev);
      ok := !reply.Transient?;
      if reply.Revision? { assert entry.log[rev].kind == Relinquishment; }
    }
  }

  /** Two unreleased leases that are both within their validity are the same grant. */
  lemma NoTwoValidHolders(log: seq<Write>, now: int, i: nat, j: nat)
    requires Legal(log) && i < |log| && j < |log| && log[|log| - 1].time <= now
    requires log[i].kind != Relinquishment && !Released(log, log[i].holder) && now < log[i].expiresAt
    requires log[j].kind != Relinquishment && !Released(log, log[j].holder) && now < log[j].expiresAt
    ensures log[i].epoch == log[j].epoch && log[i].holder == log[j].holder
  {
    HolderIsSole(log, i, now);
    HolderIsSole(log, j, now);
  }
}
