/** The three listings over a view, their continuation cursors, and what a caller
    who follows the cursors gets, over a view that stands still and over one that moves. */
module Listings {
  import opened Storage
  import opened SortOrder
  import opened OrderedView

  // ---- reference definition of a page --------------------------------------

  function Rows(records: Records, entries: seq<Identity>): (rows: seq<OrderedRecord>)
    requires forall i :: 0 <= i < |entries| ==> entries[i] in records
    ensures |rows| == |entries|
    ensures forall i :: 0 <= i < |rows| ==> rows[i] == records[entries[i]]
  {
    seq(|entries|, i requires 0 <= i < |entries| => records[entries[i]])
  }

  ghost predicate Sorted(ix: Index, rows: seq<OrderedRecord>) {
    forall i, j :: 0 <= i < j < |rows| ==> Before(ix, rows[i], rows[j])
  }

  /** The rows that sort strictly after the cursor's position, by plain filtering. */
  function After(ix: Index, rows: seq<OrderedRecord>, probe: Option<OrderedRecord>): seq<OrderedRecord> {
    if rows == [] then []
    else if probe.None? || Before(ix, probe.value, rows[0]) then [rows[0]] + After(ix, rows[1..], probe)
    else After(ix, rows[1..], probe)
  }

  /** The rows due no later than bound, by plain filtering. */
  function Eligible(rows: seq<OrderedRecord>, bound: int64): seq<OrderedRecord> {
    if rows == [] then []
    else if Millis(rows[0].due) <= bound then [rows[0]] + Eligible(rows[1..], bound)
    else Eligible(rows[1..], bound)
  }

  function Cut(rows: seq<OrderedRecord>, limit: nat): seq<OrderedRecord> {
    if limit < |rows| then rows[..limit] else rows
  }

  lemma {:induction false} AfterIsSuffix(ix: Index, rows: seq<OrderedRecord>, probe: Option<OrderedRecord>, start: nat)
    requires start <= |rows|
    requires probe.None? ==> start == 0
    requires probe.Some? ==> forall i :: 0 <= i < start ==> !Before(ix, probe.value, rows[i])
    requires probe.Some? ==> forall i :: start <= i < |rows| ==> Before(ix, probe.value, rows[i])
    ensures After(ix, rows, probe) == rows[start..]
  {
    hide Before;
    if rows != [] {
      AfterIsSuffix(ix, rows[1..], probe, if start == 0 then 0 else start - 1);
      assert start == 0 ==> rows == [rows[0]] + rows[1..];
      assert start > 0 ==> rows[1..][start - 1..] == rows[start..];
    }
  }

  lemma {:induction false} EligibleIsPrefix(rows: seq<OrderedRecord>, bound: int64, end: nat)
    requires end <= |rows|
    requires forall i :: 0 <= i < end ==> Millis(rows[i].due) <= bound
    requires forall i :: end <= i < |rows| ==> bound < Millis(rows[i].due)
    ensures Eligible(rows, bound) == rows[..end]
  {
    if rows != [] {
      EligibleIsPrefix(rows[1..], bound, if end == 0 then 0 else end - 1);
      assert end > 0 ==> rows[..end] == [rows[0]] + rows[1..][..end - 1];
    }
  }

  /** The slice between two search results is the reference page. */
  lemma SliceIsPage(ix: Index, records: Records, entries: seq<Identity>, eligible: nat, probe: Option<OrderedRecord>, start: nat, end: nat, limit: nat)
    requires forall i :: 0 <= i < |entries| ==> entries[i] in records
    requires start <= eligible <= |entries| && end == if start + limit < eligible then start + limit else eligible
    requires probe.None? ==> start == 0
    requires probe.Some? ==> forall i :: 0 <= i < start ==> !Before(ix, probe.value, records[entries[i]])
    requires probe.Some? ==> forall i :: start <= i < eligible ==> Before(ix, probe.value, records[entries[i]])
    ensures var rest := After(ix, Rows(records, entries)[..eligible], probe);
            |rest| == eligible - start && Rows(records, entries[start..end]) == Cut(rest, limit)
  {
    hide Before;
    hide After;
    var rest := Rows(records, entries)[..eligible][start..];
    AfterIsSuffix(ix, Rows(records, entries)[..eligible], probe, start);
    forall k | 0 <= k < end - start ensures Rows(records, entries[start..end])[k] == rest[k] {
      assert entries[start..end][k] == entries[start + k];
    }
    assert Rows(records, entries[start..end]) == Cut(rest, limit);
  }

  // ---- cursors -------------------------------------------------------------

  datatype CursorKind = RankedCursorKind | DueCursorKind

  /** A decoded position. It is bound to the query it was issued under. */
  datatype CursorPayload = CursorPayload(
    kind: CursorKind, namespace: string, rankingScope: string, rank: int64,
    dueBound: int64, dueAt: int64, stableKey: string, orderingScope: string)

  /** A token as its decoder sees it: absent, refused by shape or version, or carrying a position. */
  datatype Token = NoToken | MalformedToken | UnknownVersionToken | Token(payload: CursorPayload)

  datatype CursorRule = Malformed | UnknownVersion | WrongKind | QueryMismatch

  datatype Probe = Reject(rule: CursorRule) | At(probe: Option<OrderedRecord>)

  function ProbeRecord(id: Identity, rankingScope: string, rank: Rank, due: Due): OrderedRecord {
    OrderedRecord(id, rankingScope, 0, 0, due, rank, false, [])
  }

  function DecodeRankedCursor(after: Token, namespace: string, rankingScope: string): Probe {
    match after
    case NoToken => At(None)
    case MalformedToken => Reject(Malformed)
    case UnknownVersionToken => Reject(UnknownVersion)
    case Token(p) =>
      if p.kind != RankedCursorKind then Reject(WrongKind)
      else if p.namespace != namespace || p.rankingScope != rankingScope then Reject(QueryMismatch)
      else At(Some(ProbeRecord(Identity(p.orderingScope, p.stableKey), p.rankingScope, Rank(true, p.rank), NotDue)))
  }

  function DecodeDueCursor(after: Token, namespace: string, dueAtOrBefore: int64): Probe {
    match after
    case NoToken => At(None)
    case MalformedToken => Reject(Malformed)
    case UnknownVersionToken => Reject(UnknownVersion)
    case Token(p) =>
      if p.kind != DueCursorKind then Reject(WrongKind)
      else if p.namespace != namespace || p.dueBound != dueAtOrBefore || p.dueAt > dueAtOrBefore then Reject(QueryMismatch)
      else At(Some(ProbeRecord(Identity(p.orderingScope, p.stableKey), "", UNRANKED, DueAt(p.dueAt))))
  }

  /** A cursor is refused for its shape, its version, its kind or its query, in that order. */
  lemma RankedCursorRules(after: Token, namespace: string, rankingScope: string)
    ensures var at := DecodeRankedCursor(after, namespace, rankingScope);
            && (at == Reject(Malformed) <==> after.MalformedToken?)
            && (at == Reject(UnknownVersion) <==> after.UnknownVersionToken?)
            && (at == Reject(WrongKind) <==> after.Token? && after.payload.kind != RankedCursorKind)
            && (at == Reject(QueryMismatch) <==>
                  after.Token? && after.payload.kind == RankedCursorKind
                  && (after.payload.namespace != namespace || after.payload.rankingScope != rankingScope))
            && (at.At? ==> if after.NoToken? then at.probe.None? else
                  && at.probe.Some? && at.probe.value.rank.value == after.payload.rank
                  && at.probe.value.id.stableKey == after.payload.stableKey
                  && at.probe.value.id.orderingScope == after.payload.orderingScope)
  {
  }

  /** A due cursor is also refused if it lies past the bound of the query it claims to belong to. */
  lemma DueCursorRules(after: Token, namespace: string, bound: int64)
    ensures var at := DecodeDueCursor(after, namespace, bound);
            && (at == Reject(Malformed) <==> after.MalformedToken?)
            && (at == Reject(UnknownVersion) <==> after.UnknownVersionToken?)
            && (at == Reject(WrongKind) <==> after.Token? && after.payload.kind != DueCursorKind)
            && (at == Reject(QueryMismatch) <==>
                  after.Token? && after.payload.kind == DueCursorKind
                  && (after.payload.namespace != namespace || after.payload.dueBound != bound || bound < after.payload.dueAt))
            && (at.At? ==> if after.NoToken? then at.probe.None? else
                  && at.probe.Some? && at.probe.value.due == DueAt(after.payload.dueAt)
                  && at.probe.value.id.stableKey == after.payload.stableKey
                  && at.probe.value.id.orderingScope == after.payload.orderingScope)
  {
  }

  function RankedToken(namespace: string, rankingScope: string, last: OrderedRecord): Token {
    Token(CursorPayload(RankedCursorKind, namespace, rankingScope, last.rank.value, 0, 0, last.id.stableKey, last.id.orderingScope))
  }

  function DueToken(namespace: string, bound: int64, last: OrderedRecord): Token {
    Token(CursorPayload(DueCursorKind, namespace, "", 0, bound, Millis(last.due), last.id.stableKey, last.id.orderingScope))
  }

  /** A cursor issued for a record resumes at exactly that record's position, for the same query only. */
  lemma CursorResumesInPlace(namespace: string, scope: string, bound: int64, last: OrderedRecord, ns: string, sc: string, b: int64)
    ensures var at := DecodeRankedCursor(RankedToken(namespace, scope, last), ns, sc);
            if ns == namespace && sc == scope then at.At? && at.probe.Some? && SameKey(ByRank, at.probe.value, last)
            else at == Reject(QueryMismatch)
    ensures Millis(last.due) <= bound ==>
              var at := DecodeDueCursor(DueToken(namespace, bound, last), ns, b);
              if ns == namespace && b == bound then at.At? && at.probe.Some? && SameKey(ByDue, at.probe.value, last)
              else at == Reject(QueryMismatch)
    ensures DecodeRankedCursor(DueToken(namespace, bound, last), ns, sc) == Reject(WrongKind)
    ensures DecodeDueCursor(RankedToken(namespace, scope, last), ns, b) == Reject(WrongKind)
  {
  }

  // ---- the listings --------------------------------------------------------

  datatype Page = Refused | BadCursor(rule: CursorRule) | Page(rows: seq<OrderedRecord>, next: Token)

  datatype OrderedPage = OrderedRefused | OrderedPage(rows: seq<OrderedRecord>, nextAfterOrder: uint64)

  function OrderProbe(afterOrder: uint64): OrderedRecord {
    OrderedRecord(Identity("", ""), "", 0, afterOrder, NotDue, UNRANKED, false, [])
  }

  /** The index a view keeps is the listing, whichever way the listing was obtained. */
  lemma IndexIsListing(ix: Index, records: Records, index: map<string, seq<Identity>>, group: string, full: seq<Identity>)
    requires Indexed(ix, records, index) && Listing(ix, group, records, full)
    ensures Entries(index, group) == full && SortedBy(ix, records, full)
  {
    assert Listing(ix, group, records, Entries(index, group));
    ListingIsUnique(ix, group, records, Entries(index, group), full);
  }

  /** Where the page after an exclusive order begins; the largest order has no successor. */
  method OrderedStart(view: View, entries: seq<Identity>, afterOrder: uint64) returns (start: nat)
    requires SortedBy(ByOrder, view.records, entries)
    ensures start <= |entries|
    ensures forall i :: 0 <= i < start ==> !Before(ByOrder, OrderProbe(afterOrder), view.records[entries[i]])
    ensures forall i :: start <= i < |entries| ==> Before(ByOrder, OrderProbe(afterOrder), view.records[entries[i]])
  {
    hide StrLess, RankedBefore, DueBefore;
    start := |entries|;
    if afterOrder != MAX_UINT64 {
      start := view.OrderLowerBound(entries, afterOrder + 1);
    }
  }

  /** What belongs to each listing, in the record's own terms. */
  lemma Members(ix: Index, records: Records, group: string, full: seq<Identity>)
    requires Listing(ix, group, records, full)
    ensures ix == ByOrder ==> forall id :: id in full <==> id in records && records[id].id.orderingScope == group
    ensures ix == ByRank ==> forall id :: id in full <==>
              id in records && !records[id].deleted && records[id].rank.ranked && records[id].rankingScope == group
    ensures ix == ByDue ==> forall id :: id in full <==> id in records && !records[id].deleted && records[id].due.DueAt?
  {
    hide Before;
  }

  ghost predicate Follows(ix: Index, probe: Option<OrderedRecord>, rec: OrderedRecord) {
    probe.None? || Before(ix, probe.value, rec)
  }

  lemma {:induction false} AfterFacts(ix: Index, rows: seq<OrderedRecord>, probe: Option<OrderedRecord>)
    requires Sorted(ix, rows)
    ensures Sorted(ix, After(ix, rows, probe))
    ensures forall rec :: rec in After(ix, rows, probe) <==> rec in rows && Follows(ix, probe, rec)
  {
    hide Before;
    if rows != [] {
      AfterFacts(ix, rows[1..], probe);
      assert rows == [rows[0]] + rows[1..];
      var tail := After(ix, rows[1..], probe);
      forall rec | rec in tail ensures Before(ix, rows[0], rec) {
        var k :| 0 <= k < |rows| - 1 && rows[1..][k] == rec;
        assert rows[k + 1] == rec;
      }
    }
  }

  lemma {:induction false} EligibleFacts(rows: seq<OrderedRecord>, bound: int64)
    requires Sorted(ByDue, rows)
    ensures Sorted(ByDue, Eligible(rows, bound))
    ensures forall rec :: rec in Eligible(rows, bound) <==> rec in rows && Millis(rec.due) <= bound
  {
    hide Before;
    if rows != [] {
      EligibleFacts(rows[1..], bound);
      assert rows == [rows[0]] + rows[1..];
      forall rec | rec in Eligible(rows[1..], bound) ensures Before(ByDue, rows[0], rec) {
        var k :| 0 <= k < |rows| - 1 && rows[1..][k] == rec;
        assert rows[k + 1] == rec;
      }
    }
  }

  /** The rows of a view's index are its members, in order. */
  lemma ListingRowsAreSorted(ix: Index, group: string, records: Records, entries: seq<Identity>)
    requires Listing(ix, group, records, entries)
    ensures Sorted(ix, Rows(records, entries))
    ensures forall rec :: rec in Rows(records, entries) <==>
              exists id :: id in records && records[id] == rec && Belongs(ix, group, rec)
  {
  }

  /** A page is a sorted part of what is listed, past the cursor's position. */
  lemma PageOf(ix: Index, listed: seq<OrderedRecord>, probe: Option<OrderedRecord>, rows: seq<OrderedRecord>, limit: nat)
    requires Sorted(ix, listed) && rows == Cut(After(ix, listed, probe), limit)
    ensures |rows| <= limit && Sorted(ix, rows)
    ensures forall rec :: rec in rows ==> rec in listed && Follows(ix, probe, rec)
  {
    hide Before, Follows;
    AfterFacts(ix, listed, probe);
    forall rec | rec in rows ensures rec in After(ix, listed, probe) {}
  }

  /** What the acceptance stream's page holds, in the records' own terms. */
  lemma OrderedFacts(records: Records, group: string, full: seq<Identity>, afterOrder: uint64, rows: seq<OrderedRecord>, limit: nat)
    requires Listing(ByOrder, group, records, full)
    requires rows == Cut(After(ByOrder, Rows(records, full), Some(OrderProbe(afterOrder))), limit)
    ensures |rows| <= limit
    ensures forall i :: 0 <= i < |rows| ==> afterOrder < rows[i].order
    ensures forall i, j :: 0 <= i < j < |rows| ==> rows[i].order < rows[j].order
  {
    hide RankedBefore, DueBefore, After, Belongs, Cut;
    ListingRowsAreSorted(ByOrder, group, records, full);
    PageOf(ByOrder, Rows(records, full), Some(OrderProbe(afterOrder)), rows, limit);
    forall i | 0 <= i < |rows| ensures afterOrder < rows[i].order { assert rows[i] in rows; }
    forall i, j | 0 <= i < j < |rows| ensures rows[i].order < rows[j].order { assert Before(ByOrder, rows[i], rows[j]); }
  }

  /** The same for the ranked listing: every component descends. */
  lemma RankedFacts(records: Records, group: string, full: seq<Identity>, probe: Option<OrderedRecord>, rows: seq<OrderedRecord>, limit: nat)
    requires Listing(ByRank, group, records, full)
    requires rows == Cut(After(ByRank, Rows(records, full), probe), limit)
    ensures |rows| <= limit
    ensures forall i, j :: 0 <= i < j < |rows| ==>
              var a, b := rows[i], rows[j];
              || a.rank.value > b.rank.value
              || (a.rank.value == b.rank.value && StrLess(b.id.stableKey, a.id.stableKey))
              || (a.rank.value == b.rank.value && a.id.stableKey == b.id.stableKey && StrLess(b.id.orderingScope, a.id.orderingScope))
    ensures forall rec :: rec in rows ==>
              && (exists id :: id in records && records[id] == rec)
              && !rec.deleted && rec.rank.ranked && rec.rankingScope == group
              && (probe.Some? ==>
                    || rec.rank.value < probe.value.rank.value
                    || (rec.rank.value == probe.value.rank.value && StrLess(rec.id.stableKey, probe.value.id.stableKey))
                    || (rec.rank.value == probe.value.rank.value && rec.id.stableKey == probe.value.id.stableKey
                        && StrLess(rec.id.orderingScope, probe.value.id.orderingScope)))
  {
    hide StrLess, DueBefore, After, Cut;
    ListingRowsAreSorted(ByRank, group, records, full);
    PageOf(ByRank, Rows(records, full), probe, rows, limit);
    forall i, j | 0 <= i < j < |rows| ensures Before(ByRank, rows[i], rows[j]) {}
  }

  /** The same for the due listing: every component ascends. */
  lemma DueFacts(records: Records, full: seq<Identity>, bound: int64, probe: Option<OrderedRecord>, rows: seq<OrderedRecord>, limit: nat)
    requires Listing(ByDue, "", records, full)
    requires rows == Cut(After(ByDue, Eligible(Rows(records, full), bound), probe), limit)
    requires probe.Some? ==> probe.value.due.DueAt?
    ensures |rows| <= limit
    ensures forall i, j :: 0 <= i < j < |rows| ==>
              var a, b := rows[i], rows[j];
              && a.due.DueAt? && b.due.DueAt?
              && (|| a.due.unixMillis < b.due.unixMillis
                  || (a.due.unixMillis == b.due.unixMillis && StrLess(a.id.stableKey, b.id.stableKey))
                  || (a.due.unixMillis == b.due.unixMillis && a.id.stableKey == b.id.stableKey && StrLess(a.id.orderingScope, b.id.orderingScope)))
    ensures forall rec :: rec in rows ==>
              && (exists id :: id in records && records[id] == rec)
              && !rec.deleted && rec.due.DueAt? && rec.due.unixMillis <= bound
              && (probe.Some? ==>
                    || probe.value.due.unixMillis < rec.due.unixMillis
                    || (probe.value.due.unixMillis == rec.due.unixMillis && StrLess(probe.value.id.stableKey, rec.id.stableKey))
                    || (probe.value.due.unixMillis == rec.due.unixMillis && probe.value.id.stableKey == rec.id.stableKey
                        && StrLess(probe.value.id.orderingScope, rec.id.orderingScope)))
  {
    hide StrLess, RankedBefore, After, Cut, Eligible;
    ListingRowsAreSorted(ByDue, "", records, full);
    EligibleFacts(Rows(records, full), bound);
    PageOf(ByDue, Eligible(Rows(records, full), bound), probe, rows, limit);
    forall i, j | 0 <= i < j < |rows| ensures Before(ByDue, rows[i], rows[j]) && rows[i] in rows && rows[j] in rows {}
  }

  method OrderedPageAfter(view: View, orderingScope: string, afterOrder: uint64, limit: nat, ghost full: seq<Identity>)
    returns (page: OrderedPage)
    requires view.Valid() && Listing(ByOrder, orderingScope, view.records, full) && 0 < limit
    ensures page.OrderedPage?
    ensures page.rows == Cut(After(ByOrder, Rows(view.records, full), Some(OrderProbe(afterOrder))), limit)
    ensures page.nextAfterOrder == if page.rows == [] then 0 else page.rows[|page.rows| - 1].order
  {
    IndexIsListing(ByOrder, view.records, view.order, orderingScope, full);
    hide Before, After, Cut, Indexed, Listing, WellKeyed, Belongs;
    var entries := Entries(view.order, orderingScope);
    var start := OrderedStart(view, entries, afterOrder);
    var end := if start + limit < |entries| then start + limit else |entries|;
    SliceIsPage(ByOrder, view.records, entries, |entries|, Some(OrderProbe(afterOrder)), start, end, limit);
    assert Rows(view.records, entries)[..|entries|] == Rows(view.records, entries);
    assert forall i :: 0 <= i < end - start ==> entries[start..end][i] == entries[start + i];
    var rows := Rows(view.records, entries[start..end]);
    page := OrderedPage(rows, if rows == [] then 0 else rows[|rows| - 1].order);
  }

  /** Pages one order scope's acceptance stream, tombstones included, after an exclusive order. */
  method ListOrdered(view: View, namespace: string, orderingScope: string, afterOrder: uint64, limit: int, ghost full: seq<Identity>)
    returns (page: OrderedPage)
    requires view.Valid() && Listing(ByOrder, orderingScope, view.records, full)
    ensures page.OrderedRefused? <==>
              !ValidName(namespace) || !ValidName(orderingScope) || limit < 1 || MAX_ORDERED_PAGE_LIMIT < limit
    ensures page.OrderedPage? ==>
              page.rows == Cut(After(ByOrder, Rows(view.records, full), Some(OrderProbe(afterOrder))), limit)
    ensures page.OrderedPage? ==>
              && |page.rows| <= limit
              && (forall i :: 0 <= i < |page.rows| ==> afterOrder < page.rows[i].order)
              && (forall i, j :: 0 <= i < j < |page.rows| ==> page.rows[i].order < page.rows[j].order)
    ensures page.OrderedPage? && page.rows != [] ==> page.nextAfterOrder == page.rows[|page.rows| - 1].order
    ensures page.OrderedPage? && page.rows == [] ==> page.nextAfterOrder == 0
  {
    hide Before, After, Cut, Indexed, Listing, WellKeyed, ValidName, SortedBy, Rows;
    if !ValidName(namespace) || !ValidName(orderingScope) || !ValidOrderedLimit(limit) { return OrderedRefused; }
    page := OrderedPageAfter(view, orderingScope, afterOrder, limit, full);
    OrderedFacts(view.records, orderingScope, full, afterOrder, page.rows, limit);
  }

  /** The entries of a sorted index after a cursor, and whether there are more than limit. */
  method Resume(view: View, ix: Index, entries: seq<Identity>, eligible: nat, probe: Option<OrderedRecord>, limit: nat)
    returns (rows: seq<OrderedRecord>, more: bool)
    requires SortedBy(ix, view.records, entries) && eligible <= |entries| && 0 < limit
    requires probe.Some? ==> forall i :: eligible <= i < |entries| ==> Before(ix, probe.value, view.records[entries[i]])
    ensures var rest := After(ix, Rows(view.records, entries)[..eligible], probe);
            rows == Cut(rest, limit) && (more <==> limit < |rest|) && (more ==> rows != [])
  {
    hide Before, After;
    var start := 0;
    if probe.Some? {
      start := view.UpperBound(entries, ix, probe.value);
      assert eligible < |entries| ==> Before(ix, probe.value, view.records[entries[eligible]]);
    }
    var end := if start + limit < eligible then start + limit else eligible;
    rows := Rows(view.records, entries[start..end]);
    SliceIsPage(ix, view.records, entries, eligible, probe, start, end, limit);
    more := end < eligible;
  }

  method RankedPage(view: View, namespace: string, rankingScope: string, probe: Option<OrderedRecord>, limit: nat, ghost full: seq<Identity>)
    returns (rows: seq<OrderedRecord>, next: Token)
    requires view.Valid() && Listing(ByRank, rankingScope, view.records, full) && 0 < limit
    ensures var rest := After(ByRank, Rows(view.records, full), probe);
            && rows == Cut(rest, limit) && (limit < |rest| ==> rows != [])
            && next == (if |rest| <= limit then NoToken else RankedToken(namespace, rankingScope, rows[|rows| - 1]))
  {
    IndexIsListing(ByRank, view.records, view.ranked, rankingScope, full);
    hide Before, After, Cut, Indexed, Listing, WellKeyed, SortedBy;
    var entries := Entries(view.ranked, rankingScope);
    var more;
    rows, more := Resume(view, ByRank, entries, |entries|, probe, limit);
    assert Rows(view.records, entries)[..|entries|] == Rows(view.records, entries);
    next := if more then RankedToken(namespace, rankingScope, rows[|rows| - 1]) else NoToken;
  }

  /** Pages one ranking scope's live, ranked records in descending order. */
  method ListRanked(view: View, namespace: string, rankingScope: string, after: Token, limit: int, ghost full: seq<Identity>)
    returns (page: Page)
    requires view.Valid() && Listing(ByRank, rankingScope, view.records, full)
    ensures page.Refused? <==>
              !ValidName(namespace) || !ValidName(rankingScope) || limit < 1 || MAX_ORDERED_PAGE_LIMIT < limit
    ensures !page.Refused? ==>
              var at := DecodeRankedCursor(after, namespace, rankingScope);
              match at
              case Reject(rule) => page == BadCursor(rule)
              case At(probe) =>
                var rest := After(ByRank, Rows(view.records, full), probe);
                && page.Page? && page.rows == Cut(rest, limit) && (limit < |rest| ==> page.rows != [])
                && page.next == (if |rest| <= limit then NoToken else RankedToken(namespace, rankingScope, page.rows[|page.rows| - 1]))
    // Rank, then stable key, then ordering scope, each descending.
    ensures page.Page? ==> |page.rows| <= limit && forall i, j :: 0 <= i < j < |page.rows| ==>
              var a, b := page.rows[i], page.rows[j];
              || a.rank.value > b.rank.value
              || (a.rank.value == b.rank.value && StrLess(b.id.stableKey, a.id.stableKey))
              || (a.rank.value == b.rank.value && a.id.stableKey == b.id.stableKey && StrLess(b.id.orderingScope, a.id.orderingScope))
    // Only current, live, ranked records of the scope.
    ensures page.Page? ==> forall rec :: rec in page.rows ==>
              (exists id :: id in view.records && view.records[id] == rec) && !rec.deleted && rec.rank.ranked && rec.rankingScope == rankingScope
  {
    hide Before, After, Cut, Indexed, Listing, WellKeyed, ValidName, SortedBy, Rows, DecodeRankedCursor, StrLess;
    if !ValidName(namespace) || !ValidName(rankingScope) || !ValidOrderedLimit(limit) { return Refused; }
    var at := DecodeRankedCursor(after, namespace, rankingScope);
    if at.Reject? { return BadCursor(at.rule); }
    var rows, next := RankedPage(view, namespace, rankingScope, at.probe, limit, full);
    RankedFacts(view.records, rankingScope, full, at.probe, rows, limit);
    page := Page(rows, next);
  }

  /** The eligible entries of the due index. A cursor past the bound was refused, so no resume point
      lies past them and the page's slice is always in bounds. */
  method EligibleEnd(view: View, probe: Option<OrderedRecord>, bound: int64) returns (eligible: nat)
    requires Listing(ByDue, "", view.records, view.due)
    requires probe.Some? ==> Millis(probe.value.due) <= bound
    ensures eligible <= |view.due|
    ensures Rows(view.records, view.due)[..eligible] == Eligible(Rows(view.records, view.due), bound)
    ensures probe.Some? ==> forall i :: eligible <= i < |view.due| ==> Before(ByDue, probe.value, view.records[view.due[i]])
  {
    hide StrLess, Eligible;
    eligible := view.DueEnd(bound);
    EligibleIsPrefix(Rows(view.records, view.due), bound, eligible);
  }

  method DuePage(view: View, namespace: string, bound: int64, probe: Option<OrderedRecord>, limit: nat, ghost full: seq<Identity>)
    returns (rows: seq<OrderedRecord>, next: Token)
    requires view.Valid() && Listing(ByDue, "", view.records, full) && 0 < limit
    requires probe.Some? ==> Millis(probe.value.due) <= bound
    ensures var rest := After(ByDue, Eligible(Rows(view.records, full), bound), probe);
            && rows == Cut(rest, limit) && (limit < |rest| ==> rows != [])
            && next == (if |rest| <= limit then NoToken else DueToken(namespace, bound, rows[|rows| - 1]))
  {
    ListingIsUnique(ByDue, "", view.records, view.due, full);
    assert SortedBy(ByDue, view.records, view.due);
    hide Before, After, Eligible, Cut, Indexed, Listing, WellKeyed, SortedBy;
    var eligible := EligibleEnd(view, probe, bound);
    var more;
    rows, more := Resume(view, ByDue, view.due, eligible, probe, limit);
    next := if more then DueToken(namespace, bound, rows[|rows| - 1]) else NoToken;
  }

  /** Pages the namespace's live records due no later than a bound, ascending. */
  method ListDue(view: View, namespace: string, dueAtOrBefore: int64, after: Token, limit: int, ghost full: seq<Identity>)
    returns (page: Page)
    requires view.Valid() && Listing(ByDue, "", view.records, full)
    ensures page.Refused? <==> !ValidName(namespace) || limit < 1 || MAX_ORDERED_PAGE_LIMIT < limit
    ensures !page.Refused? ==>
              var at := DecodeDueCursor(after, namespace, dueAtOrBefore);
              match at
              case Reject(rule) => page == BadCursor(rule)
              case At(probe) =>
                var rest := After(ByDue, Eligible(Rows(view.records, full), dueAtOrBefore), probe);
                && page.Page? && page.rows == Cut(rest, limit) && (limit < |rest| ==> page.rows != [])
                && page.next == (if |rest| <= limit then NoToken else DueToken(namespace, dueAtOrBefore, page.rows[|page.rows| - 1]))
    // Due time, then stable key, then ordering scope, each ascending.
    ensures page.Page? ==> |page.rows| <= limit && forall i, j :: 0 <= i < j < |page.rows| ==>
              var a, b := page.rows[i], page.rows[j];
              && a.due.DueAt? && b.due.DueAt?
              && (|| a.due.unixMillis < b.due.unixMillis
                  || (a.due.unixMillis == b.due.unixMillis && StrLess(a.id.stableKey, b.id.stableKey))
                  || (a.due.unixMillis == b.due.unixMillis && a.id.stableKey == b.id.stableKey && StrLess(a.id.orderingScope, b.id.orderingScope)))
    // Only current, live records due by the bound.
    ensures page.Page? ==> forall rec :: rec in page.rows ==>
              (exists id :: id in view.records && view.records[id] == rec) && !rec.deleted && rec.due.DueAt? && rec.due.unixMillis <= dueAtOrBefore
  {
    hide Before, After, Eligible, Cut, Indexed, Listing, WellKeyed, ValidName, SortedBy, Rows, DecodeDueCursor, StrLess;
    if !ValidName(namespace) || !ValidOrderedLimit(limit) { return Refused; }
    var at := DecodeDueCursor(after, namespace, dueAtOrBefore);
    DueCursorRules(after, namespace, dueAtOrBefore);
    if at.Reject? { return BadCursor(at.rule); }
    var rows, next := DuePage(view, namespace, dueAtOrBefore, at.probe, limit, full);
    DueFacts(view.records, full, dueAtOrBefore, at.probe, rows, limit);
    page := Page(rows, next);
  }
}
