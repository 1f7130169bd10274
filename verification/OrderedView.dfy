/** One namespace's materialized view: the current record of every identity it has
    seen, and three sorted indexes kept in place by binary search. */
module OrderedView {
  import opened Storage
  import opened OrderedStream
  import opened SortOrder

  type Records = map<Identity, OrderedRecord>

  /** What applying one record does to the records: a revision no newer than the one held is ignored. */
  function Upserted(records: Records, rec: OrderedRecord): Records {
    if rec.id in records && rec.revision <= records[rec.id].revision then records else records[rec.id := rec]
  }

  ghost predicate WellKeyed(records: Records) {
    && (forall id :: id in records ==> records[id].id == id)
    && (forall a, b ::
          a in records && b in records && a.orderingScope == b.orderingScope && records[a].order == records[b].order
          ==> a == b)
  }

  /** What the write protocol guarantees of every delivered record: an identity's order never changes,
      and no two identities of a scope share one. */
  predicate Admissible(records: Records, rec: OrderedRecord) {
    forall id :: id in records && id.orderingScope == rec.id.orderingScope ==>
      (records[id].order == rec.order <==> id == rec.id)
  }

  /** Why a view can no longer answer. A bad stream configuration can be repaired out of band; corrupt
      records cannot. */
  datatype Fault = BadConfig | Corrupt

  function Entries(index: map<string, seq<Identity>>, group: string): seq<Identity> {
    if group in index then index[group] else []
  }

  ghost predicate Indexed(ix: Index, records: Records, index: map<string, seq<Identity>>) {
    forall group :: Listing(ix, group, records, Entries(index, group))
  }

  /** Two records with one sort key in one index are the same record's. */
  lemma KeysAreInjective(ix: Index, records: Records, a: Identity, b: Identity, group: string)
    requires WellKeyed(records) && a in records && b in records
    requires Belongs(ix, group, records[a]) && Belongs(ix, group, records[b])
    requires SameKey(ix, records[a], records[b])
    ensures a == b
  {
  }

  class View {
    var watermark: nat
    var fatal: Option<Fault>
    var records: Records
    var order: map<string, seq<Identity>>
    var ranked: map<string, seq<Identity>>
    var due: seq<Identity>

    /** Every index is exactly the sorted, duplicate-free listing of its members. */
    ghost predicate Valid() reads this {
      && WellKeyed(records)
      && Indexed(ByOrder, records, order)
      && Indexed(ByRank, records, ranked)
      && Listing(ByDue, "", records, due)
    }

    constructor ()
      ensures Valid() && watermark == 0 && fatal == None && records == map[]
    {
      watermark, fatal, records := 0, None, map[];
      order, ranked, due := map[], map[], [];
    }

    // ---- searches ----------------------------------------------------------

    /** The first position whose record does not sort before probe. */
    method LowerBound(entries: seq<Identity>, ix: Index, probe: OrderedRecord) returns (low: nat)
      requires SortedBy(ix, records, entries)
      ensures low <= |entries|
      ensures forall i :: 0 <= i < low ==> Before(ix, records[entries[i]], probe)
      ensures forall i :: low <= i < |entries| ==> !Before(ix, records[entries[i]], probe)
    {
      hide Before;
      low := 0;
      var high := |entries|;
      while low < high
        invariant low <= high <= |entries|
        invariant forall i :: 0 <= i < low ==> Before(ix, records[entries[i]], probe)
        invariant forall i :: high <= i < |entries| ==> !Before(ix, records[entries[i]], probe)
      {
        var middle := low + (high - low) / 2;
        if Before(ix, records[entries[middle]], probe) {
          forall i | 0 <= i <= middle ensures Before(ix, records[entries[i]], probe) {
            if i < middle { BeforeTransitive(ix, records[entries[i]], records[entries[middle]], probe); }
          }
          low := middle + 1;
        } else {
          forall i | middle <= i < |entries| ensures !Before(ix, records[entries[i]], probe) {
            if middle < i && Before(ix, records[entries[i]], probe) {
              BeforeTransitive(ix, records[entries[middle]], records[entries[i]], probe);
            }
          }
          high := middle;
        }
      }
    }

    /** The first position whose record sorts strictly after probe: where a cursor resumes. */
    method UpperBound(entries: seq<Identity>, ix: Index, probe: OrderedRecord) returns (low: nat)
      requires SortedBy(ix, records, entries)
      ensures low <= |entries|
      ensures forall i :: 0 <= i < low ==> !Before(ix, probe, records[entries[i]])
      ensures forall i :: low <= i < |entries| ==> Before(ix, probe, records[entries[i]])
    {
      hide Before;
      low := 0;
      var high := |entries|;
      while low < high
        invariant low <= high <= |entries|
        invariant forall i :: 0 <= i < low ==> !Before(ix, probe, records[entries[i]])
        invariant forall i :: high <= i < |entries| ==> Before(ix, probe, records[entries[i]])
      {
        var middle := low + (high - low) / 2;
        if Before(ix, probe, records[entries[middle]]) {
          forall i | middle <= i < |entries| ensures Before(ix, probe, records[entries[i]]) {
            if middle < i { BeforeTransitive(ix, probe, records[entries[middle]], records[entries[i]]); }
          }
          high := middle;
        } else {
          forall i | 0 <= i <= middle ensures !Before(ix, probe, records[entries[i]]) {
            if i < middle && Before(ix, probe, records[entries[i]]) {
              BeforeTransitive(ix, probe, records[entries[i]], records[entries[middle]]);
            }
          }
          low := middle + 1;
        }
      }
    }

    /** The first position whose order is at least order. */
    method OrderLowerBound(entries: seq<Identity>, order: nat) returns (low: nat)
      requires SortedBy(ByOrder, records, entries)
      ensures low <= |entries|
      ensures forall i :: 0 <= i < low ==> records[entries[i]].order < order
      ensures forall i :: low <= i < |entries| ==> order <= records[entries[i]].order
    {
      low := 0;
      var high := |entries|;
      while low < high
        invariant low <= high <= |entries|
        invariant forall i :: 0 <= i < low ==> records[entries[i]].order < order
        invariant forall i :: high <= i < |entries| ==> order <= records[entries[i]].order
      {
        var middle := low + (high - low) / 2;
        assert forall i :: 0 <= i < middle ==> Before(ByOrder, records[entries[i]], records[entries[middle]]);
        assert forall i :: middle < i < |entries| ==> Before(ByOrder, records[entries[middle]], records[entries[i]]);
        if records[entries[middle]].order < order {
          low := middle + 1;
        } else {
          high := middle;
        }
      }
    }

    /** The first position that is due later than bound. */
    method DueEnd(bound: int64) returns (low: nat)
      requires Listing(ByDue, "", records, due)
      ensures low <= |due|
      ensures forall i :: 0 <= i < low ==> Millis(records[due[i]].due) <= bound
      ensures forall i :: low <= i < |due| ==> bound < Millis(records[due[i]].due)
    {
      hide StrLess;
      low := 0;
      var high := |due|;
      while low < high
        invariant low <= high <= |due|
        invariant forall i :: 0 <= i < low ==> Millis(records[due[i]].due) <= bound
        invariant forall i :: high <= i < |due| ==> bound < Millis(records[due[i]].due)
      {
        var middle := low + (high - low) / 2;
        assert forall i :: 0 <= i < middle ==> Before(ByDue, records[due[i]], records[due[middle]]);
        assert forall i :: middle < i < |due| ==> Before(ByDue, records[due[middle]], records[due[i]]);
        if Millis(records[due[middle]].due) <= bound {
          low := middle + 1;
        } else {
          high := middle;
        }
      }
    }

    /** Finds key's own position: the scan past the lower bound stops at the first entry. */
    method Locate(entries: seq<Identity>, ix: Index, group: string, key: Identity) returns (at: nat, found: bool)
      requires WellKeyed(records) && Listing(ix, group, records, entries) && key in records
      ensures found <==> key in entries
      ensures found ==> at < |entries| && entries[at] == key
    {
      hide Before, Belongs;
      var record := records[key];
      at := LowerBound(entries, ix, record);
      ghost var k: int := if key in entries then var k :| 0 <= k < |entries| && entries[k] == key; k else |entries|;
      if k < |entries| {
        BeforeTrichotomy(ix, record, record);
        assert at <= k;
        assert forall i :: 0 <= i < k ==> Before(ix, records[entries[i]], records[entries[k]]);
        assert at < |entries| ==> !Before(ix, records[entries[at]], record);
      }
      while at < |entries| && !Before(ix, record, records[entries[at]])
        invariant at <= |entries|
        invariant k < |entries| ==> at == k
      {
        if entries[at] == key { return at, true; }
        at := at + 1;
      }
      if k < |entries| {
        BeforeTrichotomy(ix, record, record);
        assert false;
      }
      return 0, false;
    }

    // ---- maintenance -------------------------------------------------------

    /** Takes key out of the two current-state indexes while records still holds its old record. */
    method RemoveCurrent(key: Identity)
      requires Valid() && key in records
      modifies this`ranked, this`due
      ensures Indexed(ByRank, records - {key}, ranked)
      ensures Listing(ByDue, "", records - {key}, due)
    {
      hide Before, SortedBy;
      var previous := records[key];
      ghost var was := ranked;
      if !previous.deleted && previous.rank.ranked {
        var entries := Entries(ranked, previous.rankingScope);
        var at, found := Locate(entries, ByRank, previous.rankingScope, key);
        if found {
          ListingWithout(ByRank, previous.rankingScope, records, entries, at);
          ranked := ranked[previous.rankingScope := entries[..at] + entries[at + 1..]];
        }
      }
      forall group ensures Listing(ByRank, group, records - {key}, Entries(ranked, group)) {
        if key !in Entries(was, group) { ListingNeverHad(ByRank, group, records, Entries(was, group), key); }
      }
      if !previous.deleted && previous.due.DueAt? {
        var at, found := Locate(due, ByDue, "", key);
        if found {
          ListingWithout(ByDue, "", records, due, at);
          due := due[..at] + due[at + 1..];
        }
      } else {
        ListingNeverHad(ByDue, "", records, due, key);
      }
    }

    method InsertCurrent(key: Identity)
      requires WellKeyed(records) && key in records
      requires Indexed(ByRank, records - {key}, ranked) && Listing(ByDue, "", records - {key}, due)
      modifies this`ranked, this`due
      ensures Indexed(ByRank, records, ranked) && Listing(ByDue, "", records, due)
    {
      hide Before;
      var record := records[key];
      ghost var was := ranked;
      if !record.deleted && record.rank.ranked {
        var entries := Entries(ranked, record.rankingScope);
        assert Listing(ByRank, record.rankingScope, records - {key}, entries);
        var at := LowerBound(entries, ByRank, record);
        InsertedInPlace(ByRank, record.rankingScope, records, entries, key, at);
        ranked := ranked[record.rankingScope := entries[..at] + [key] + entries[at..]];
      }
      forall group ensures Listing(ByRank, group, records, Entries(ranked, group)) {
        assert Listing(ByRank, group, records - {key}, Entries(was, group));
        if !Belongs(ByRank, group, record) { ListingStays(ByRank, group, records, Entries(was, group), key); }
      }
      if !record.deleted && record.due.DueAt? {
        var at := LowerBound(due, ByDue, record);
        InsertedInPlace(ByDue, "", records, due, key, at);
        due := due[..at] + [key] + due[at..];
      } else {
        ListingStays(ByDue, "", records, due, key);
      }
    }

    method InsertOrder(key: Identity)
      requires WellKeyed(records) && key in records && Indexed(ByOrder, records - {key}, order)
      modifies this`order
      ensures Indexed(ByOrder, records, order)
    {
      hide StrLess;
      ghost var was := order;
      var entries := Entries(order, key.orderingScope);
      assert Listing(ByOrder, key.orderingScope, records - {key}, entries);
      assert SortedBy(ByOrder, records, entries);
      var at := OrderLowerBound(entries, records[key].order);
      InsertedInPlace(ByOrder, key.orderingScope, records, entries, key, at);
      order := order[key.orderingScope := entries[..at] + [key] + entries[at..]];
      forall group ensures Listing(ByOrder, group, records, Entries(order, group)) {
        assert Listing(ByOrder, group, records - {key}, Entries(was, group));
        if group != key.orderingScope { ListingStays(ByOrder, group, records, Entries(was, group), key); }
      }
    }

    /** Upserts one record and repositions it in every index it belongs to. */
    method ApplyRecord(rec: OrderedRecord)
      requires Valid() && Admissible(records, rec)
      modifies this`records, this`order, this`ranked, this`due
      ensures Valid() && records == Upserted(old(records), rec)
      // A revision no newer than the one held changes nothing; any other takes its place.
      ensures rec.id in old(records) && rec.revision <= old(records)[rec.id].revision ==>
                records == old(records) && order == old(order) && ranked == old(ranked) && due == old(due)
      ensures !(rec.id in old(records) && rec.revision <= old(records)[rec.id].revision) ==> records == old(records)[rec.id := rec]
    {
      var key := rec.id;
      if key in records && rec.revision <= records[key].revision { return; }
      ghost var was := records;
      var had := key in records;
      if had {
        RemoveCurrent(key);
      }
      records := records[key := rec];
      assert records - {key} == was - {key};
      if had {
        OrderIndexStays(was, rec, order);
      } else {
        assert was - {key} == was;
        InsertOrder(key);
      }
      InsertCurrent(key);
    }

    method Advance(seqno: nat)
      modifies this`watermark
      ensures watermark == if seqno <= old(watermark) then old(watermark) else seqno
    {
      if seqno <= watermark { return; }
      watermark := seqno;
    }

    /** The first fault is the one every later reader is told. */
    method SetFatal(fault: Fault)
      modifies this`fatal
      ensures fatal == if old(fatal).Some? then old(fatal) else Some(fault)
    {
      if fatal.None? { fatal := Some(fault); }
    }

    /** Folds one delivered message into the view: its only writer. */
    method ApplyMessage(subject: Subject, seqno: nat, data: Payload)
      requires Valid()
      requires Deliverable(subject, data) ==> subject.RecordSubject? ==> Admissible(records, data.rec)
      modifies this
      ensures Valid()
      // A record subject must carry a valid record of its own identity.
      ensures subject.RecordSubject? && !(data.RecordPayload? && data.rec.id == subject.id && ValidRecord(data.rec)) ==>
                fatal.Some? && watermark == old(watermark) && records == old(records)
      ensures !subject.RecordSubject? || (data.RecordPayload? && data.rec.id == subject.id && ValidRecord(data.rec)) ==>
                fatal == old(fatal) && seqno <= watermark
      ensures Deliverable(subject, data) ==>
                && fatal == old(fatal)
                && watermark == (if seqno <= old(watermark) then old(watermark) else seqno)
                && records == (if subject.RecordSubject? then Upserted(old(records), data.rec) else old(records))
      ensures !Deliverable(subject, data) ==>
                && fatal == (if old(fatal).Some? then old(fatal) else Some(Corrupt))
                && watermark == old(watermark) && records == old(records)
    {
      if !Deliverable(subject, data) {
        SetFatal(Corrupt);
        return;
      }
      if subject.RecordSubject? {
        ApplyRecord(data.rec);
      }
      Advance(seqno);
    }
  }

  /** A record payload decodes, is valid, and names the identity whose subject it was read from;
      a counter subject carries nothing the view reads. */
  predicate Deliverable(subject: Subject, data: Payload) {
    subject.RecordSubject? ==> data.RecordPayload? && data.rec.id == subject.id && ValidRecord(data.rec)
  }

  lemma InsertedInPlace(ix: Index, group: string, records: Records, entries: seq<Identity>, key: Identity, at: nat)
    requires WellKeyed(records) && key in records && Belongs(ix, group, records[key])
    requires Listing(ix, group, records - {key}, entries) && at <= |entries|
    requires forall i :: 0 <= i < at ==> Before(ix, records[entries[i]], records[key])
    requires forall i :: at <= i < |entries| ==> !Before(ix, records[entries[i]], records[key])
    ensures Listing(ix, group, records, entries[..at] + [key] + entries[at..])
  {
    hide Before, Belongs, SameKey;
    forall i | at <= i < |entries| ensures Before(ix, records[key], records[entries[i]]) {
      assert entries[i] in entries;
      BeforeTrichotomy(ix, records[entries[i]], records[key]);
      if SameKey(ix, records[entries[i]], records[key]) { KeysAreInjective(ix, records, entries[i], key, group); }
    }
    ListingWith(ix, group, records, entries, key, at);
  }

  /** Order is immutable, so a newer version never moves in the acceptance stream. */
  lemma OrderIndexStays(records: Records, rec: OrderedRecord, order: map<string, seq<Identity>>)
    requires rec.id in records && WellKeyed(records) && Admissible(records, rec) && Indexed(ByOrder, records, order)
    ensures Indexed(ByOrder, records[rec.id := rec], order)
  {
  }
}
