/** A caller who follows a listing's cursors to the end, through the store's own listing
    methods, while messages keep changing the view between pages. */
module Paging {
  import opened Storage
  import opened OrderedStream
  import opened SortOrder
  import opened OrderedView
  import opened Listings
  import opened Walks

  datatype Query = OrderScope(scope: string) | RankingScope(scope: string) | DueBy(bound: int64)

  function IndexOf(q: Query): Index {
    match q
    case OrderScope(_) => ByOrder
    case RankingScope(_) => ByRank
    case DueBy(_) => ByDue
  }

  predicate ValidQuery(q: Query) {
    !q.DueBy? ==> ValidName(q.scope)
  }

  /** What there is to list, at this moment. */
  ghost function RowsOf(view: View, q: Query): seq<OrderedRecord>
    reads view
    requires view.Valid()
  {
    assert Listing(ByOrder, if q.OrderScope? then q.scope else "", view.records, Entries(view.order, if q.OrderScope? then q.scope else ""));
    assert Listing(ByRank, if q.RankingScope? then q.scope else "", view.records, Entries(view.ranked, if q.RankingScope? then q.scope else ""));
    match q
    case OrderScope(scope) => Rows(view.records, Entries(view.order, scope))
    case RankingScope(scope) => Rows(view.records, Entries(view.ranked, scope))
    case DueBy(bound) => Eligible(Rows(view.records, view.due), bound)
  }

  predicate PositiveOrders(records: Records) {
    forall id :: id in records ==> 0 < records[id].order
  }

  /** Where a caller stands: after an order, or after a token, according to the listing. */
  datatype Cursor = Cursor(afterOrder: uint64, token: Token)

  const AT_START := Cursor(0, NoToken)

  /** The cursor a caller holds after the row `last`, or at the start. */
  function CursorAfter(namespace: string, q: Query, last: Option<OrderedRecord>): Cursor {
    if last.None? then AT_START
    else
      match q
      case OrderScope(_) => Cursor(last.value.order, NoToken)
      case RankingScope(scope) => Cursor(0, RankedToken(namespace, scope, last.value))
      case DueBy(bound) => Cursor(0, DueToken(namespace, bound, last.value))
  }

  ghost predicate WithinQuery(q: Query, last: Option<OrderedRecord>) {
    q.DueBy? && last.Some? ==> Millis(last.value.due) <= q.bound
  }

  lemma RowsAreInView(view: View, q: Query)
    requires view.Valid()
    ensures Sorted(IndexOf(q), RowsOf(view, q))
    ensures forall rec :: rec in RowsOf(view, q) ==> WithinQuery(q, Some(rec)) && exists id :: id in view.records && view.records[id] == rec
    ensures Lists(q, view.records, RowsOf(view, q))
  {
    hide Before, Belongs;
    match q
    case OrderScope(scope) =>
      assert Listing(ByOrder, scope, view.records, Entries(view.order, scope));
      ListingRowsAreSorted(ByOrder, scope, view.records, Entries(view.order, scope));
    case RankingScope(scope) =>
      assert Listing(ByRank, scope, view.records, Entries(view.ranked, scope));
      ListingRowsAreSorted(ByRank, scope, view.records, Entries(view.ranked, scope));
    case DueBy(bound) =>
      ListingRowsAreSorted(ByDue, "", view.records, view.due);
      EligibleFacts(Rows(view.records, view.due), bound);
  }

  /** The position a cursor decodes to stands for the row it was issued after. */
  lemma CursorStandsForRow(namespace: string, q: Query, last: Option<OrderedRecord>, rows: seq<OrderedRecord>)
    requires WithinQuery(q, last)
    requires q.OrderScope? ==> forall i :: 0 <= i < |rows| ==> 0 < rows[i].order
    ensures var at := CursorAfter(namespace, q, last);
            match q
            case OrderScope(_) => After(ByOrder, rows, Some(OrderProbe(at.afterOrder))) == After(ByOrder, rows, last)
            case RankingScope(scope) =>
              var probe := DecodeRankedCursor(at.token, namespace, scope);
              probe.At? && After(ByRank, rows, probe.probe) == After(ByRank, rows, last)
            case DueBy(bound) =>
              var probe := DecodeDueCursor(at.token, namespace, bound);
              probe.At? && After(ByDue, rows, probe.probe) == After(ByDue, rows, last)
  {
    hide After, Before;
    if last.None? {
      if q.OrderScope? { AfterZeroIsAll(rows); }
    } else {
      match q
      case OrderScope(_) => AfterDependsOnKey(ByOrder, rows, OrderProbe(last.value.order), last.value);
      case RankingScope(scope) =>
        CursorResumesInPlace(namespace, scope, 0, last.value, namespace, scope, 0);
        AfterDependsOnKey(ByRank, rows, DecodeRankedCursor(RankedToken(namespace, scope, last.value), namespace, scope).probe.value, last.value);
      case DueBy(bound) =>
        CursorResumesInPlace(namespace, "", bound, last.value, namespace, "", bound);
        AfterDependsOnKey(ByDue, rows, DecodeDueCursor(DueToken(namespace, bound, last.value), namespace, bound).probe.value, last.value);
    }
  }

  lemma ViewListing(view: View, ix: Index, group: string)
    requires view.Valid()
    ensures Listing(ByOrder, group, view.records, Entries(view.order, group))
    ensures Listing(ByRank, group, view.records, Entries(view.ranked, group))
  {
  }

  method FetchOrdered(view: View, namespace: string, q: Query, at: Cursor, limit: int, ghost last: Option<OrderedRecord>)
    returns (rows: seq<OrderedRecord>, next: Cursor, more: bool)
    requires q.OrderScope?
    requires view.Valid() && PositiveOrders(view.records) && ValidOrderedLimit(limit) && ValidName(namespace) && ValidQuery(q)
    requires WithinQuery(q, last) && at == CursorAfter(namespace, q, last)
    ensures var rest := After(IndexOf(q), RowsOf(view, q), last);
            rows == Cut(rest, limit) && (more <==> !Done(IndexOf(q), rest, limit))
    ensures more ==> rows != [] && next == CursorAfter(namespace, q, Some(rows[|rows| - 1]))
  {
    hide After, Before, SortedBy, Indexed, WellKeyed, ValidName, Listing, Rows, StrLess, Sorted;
    RowsAreInView(view, q);
    forall i | 0 <= i < |RowsOf(view, q)| ensures 0 < RowsOf(view, q)[i].order { assert RowsOf(view, q)[i] in RowsOf(view, q); }
    CursorStandsForRow(namespace, q, last, RowsOf(view, q));
    ViewListing(view, ByOrder, q.scope);
    var page := ListOrdered(view, namespace, q.scope, at.afterOrder, limit, Entries(view.order, q.scope));
    rows, more := page.rows, page.rows != [];
    next := Cursor(page.nextAfterOrder, NoToken);
  }

  method FetchRanked(view: View, namespace: string, q: Query, at: Cursor, limit: int, ghost last: Option<OrderedRecord>)
    returns (rows: seq<OrderedRecord>, next: Cursor, more: bool)
    requires q.RankingScope?
    requires view.Valid() && PositiveOrders(view.records) && ValidOrderedLimit(limit) && ValidName(namespace) && ValidQuery(q)
    requires WithinQuery(q, last) && at == CursorAfter(namespace, q, last)
    ensures var rest := After(IndexOf(q), RowsOf(view, q), last);
            rows == Cut(rest, limit) && (more <==> !Done(IndexOf(q), rest, limit))
    ensures more ==> rows != [] && next == CursorAfter(namespace, q, Some(rows[|rows| - 1]))
  {
    hide After, Before, SortedBy, Indexed, WellKeyed, ValidName, Listing, Rows, StrLess, Sorted;
    RowsAreInView(view, q);
    CursorStandsForRow(namespace, q, last, RowsOf(view, q));
    ViewListing(view, ByRank, q.scope);
    var page := ListRanked(view, namespace, q.scope, at.token, limit, Entries(view.ranked, q.scope));
    rows, more := page.rows, page.next != NoToken;
    next := Cursor(0, page.next);
  }

  method FetchDue(view: View, namespace: string, q: Query, at: Cursor, limit: int, ghost last: Option<OrderedRecord>)
    returns (rows: seq<OrderedRecord>, next: Cursor, more: bool)
    requires q.DueBy?
    requires view.Valid() && PositiveOrders(view.records) && ValidOrderedLimit(limit) && ValidName(namespace) && ValidQuery(q)
    requires WithinQuery(q, last) && at == CursorAfter(namespace, q, last)
    ensures var rest := After(IndexOf(q), RowsOf(view, q), last);
            rows == Cut(rest, limit) && (more <==> !Done(IndexOf(q), rest, limit))
    ensures more ==> rows != [] && next == CursorAfter(namespace, q, Some(rows[|rows| - 1]))
  {
    hide After, Before, SortedBy, Indexed, WellKeyed, ValidName, Listing, Rows, StrLess, Sorted;
    RowsAreInView(view, q);
    CursorStandsForRow(namespace, q, last, RowsOf(view, q));
    var page := ListDue(view, namespace, q.bound, at.token, limit, view.due);
    rows, more := page.rows, page.next != NoToken;
    next := Cursor(0, page.next);
  }

  /** One page, asked for at the cursor held after `last`. */
  method FetchPage(view: View, namespace: string, q: Query, at: Cursor, limit: int, ghost last: Option<OrderedRecord>)
    returns (rows: seq<OrderedRecord>, next: Cursor, more: bool)
    requires view.Valid() && PositiveOrders(view.records) && ValidOrderedLimit(limit) && ValidName(namespace) && ValidQuery(q)
    requires WithinQuery(q, last) && at == CursorAfter(namespace, q, last)
    ensures var rest := After(IndexOf(q), RowsOf(view, q), last);
            rows == Cut(rest, limit) && (more <==> !Done(IndexOf(q), rest, limit))
    ensures more ==> rows != [] && next == CursorAfter(namespace, q, Some(rows[|rows| - 1]))
  {
    hide After, Before, SortedBy, Indexed, WellKeyed, ValidName, Listing, Rows, CursorAfter, Done, Cut;
    match q
    case OrderScope(_) => rows, next, more := FetchOrdered(view, namespace, q, at, limit, last);
    case RankingScope(_) => rows, next, more := FetchRanked(view, namespace, q, at, limit, last);
    case DueBy(_) => rows, next, more := FetchDue(view, namespace, q, at, limit, last);
  }

  /** A message delivered to the view. */
  datatype Message = Message(subject: Subject, seqno: nat, data: Payload)

  /** What happens before a page is asked for, and how long it may be. */
  datatype Stage = Stage(messages: seq<Message>, limit: int)

  /** The records after messages were folded in. Messages that the view could not decode change
      nothing, and those that no write protocol could have put on the stream are left out. */
  function Folded(records: Records, messages: seq<Message>): Records
    decreases |messages|
  {
    if messages == [] then records
    else
      var m := messages[0];
      Folded(if Deliverable(m.subject, m.data) && m.subject.RecordSubject? && Admissible(records, m.data.rec)
             then Upserted(records, m.data.rec) else records,
             messages[1..])
  }

  method Deliver(view: View, messages: seq<Message>)
    requires view.Valid() && PositiveOrders(view.records)
    modifies view
    ensures view.Valid() && PositiveOrders(view.records) && view.records == Folded(old(view.records), messages)
  {
    for i := 0 to |messages|
      invariant view.Valid() && PositiveOrders(view.records)
      invariant Folded(view.records, messages[i..]) == Folded(old(view.records), messages)
    {
      var m := messages[i];
      assert messages[i..][0] == m && messages[i..][1..] == messages[i + 1..];
      if Deliverable(m.subject, m.data) && m.subject.RecordSubject? ==> Admissible(view.records, m.data.rec) {
        view.ApplyMessage(m.subject, m.seqno, m.data);
      }
    }
    assert messages[|messages|..] == [];
  }

  /** rows are what q lists over the records, sorted and filtered. */
  ghost predicate Lists(q: Query, records: Records, rows: seq<OrderedRecord>) {
    exists full :: Listing(IndexOf(q), if q.DueBy? then "" else q.scope, records, full)
      && rows == if q.DueBy? then Eligible(Rows(records, full), q.bound) else Rows(records, full)
  }

  /** Each visit lists the records as they were when its page was asked for. */
  ghost predicate Visited(q: Query, records: Records, stages: seq<Stage>, visits: seq<Visit>)
    decreases |visits|
  {
    visits != [] ==>
      && stages != [] && visits[0].limit == stages[0].limit
      && Lists(q, Folded(records, stages[0].messages), visits[0].rows)
      && Visited(q, Folded(records, stages[0].messages), stages[1..], visits[1..])
  }

  /** Follows the cursors from where the caller stands. */
  method FollowFrom(view: View, namespace: string, q: Query, stages: seq<Stage>, at: Cursor, ghost last: Option<OrderedRecord>)
    returns (rows: seq<OrderedRecord>, finished: bool, ghost visits: seq<Visit>)
    requires view.Valid() && PositiveOrders(view.records)
    requires ValidName(namespace) && ValidQuery(q) && forall i :: 0 <= i < |stages| ==> ValidOrderedLimit(stages[i].limit)
    requires WithinQuery(q, last) && at == CursorAfter(namespace, q, last)
    modifies view
    ensures view.Valid() && Proper(IndexOf(q), visits)
    ensures rows == Walk(IndexOf(q), visits, last) && (finished <==> Finished(IndexOf(q), visits, last))
    ensures Visited(q, old(view.records), stages, visits) && (!finished ==> |visits| == |stages|)
    decreases |stages|
  {
    hide After, Before, ValidName, Walk, Finished, Sorted, Cut, Lists, Folded, CursorAfter, Indexed, Listing, WellKeyed, Done;
    if stages == [] {
      WalkOfNothing(IndexOf(q), last);
      return [], false, [];
    }
    Deliver(view, stages[0].messages);
    RowsAreInView(view, q);
    ghost var visit := Visit(RowsOf(view, q), stages[0].limit);
    ghost var rest := After(IndexOf(q), visit.rows, last);
    var next, more;
    rows, next, more := FetchPage(view, namespace, q, at, stages[0].limit, last);
    if !more {
      visits, finished := [visit], true;
      WalkUnfolds(IndexOf(q), visits, last, rest);
      return;
    }
    PageFacts(IndexOf(q), visit, last, rows);
    assert rows[|rows| - 1] in visit.rows;
    var tail;
    ghost var tailVisits;
    tail, finished, tailVisits := FollowFrom(view, namespace, q, stages[1..], next, Some(rows[|rows| - 1]));
    visits := [visit] + tailVisits;
    assert visits[1..] == tailVisits;
    WalkUnfolds(IndexOf(q), visits, last, rest);
    rows := rows + tail;
  }

  lemma WalkOfNothing(ix: Index, last: Option<OrderedRecord>)
    ensures Walk(ix, [], last) == [] && !Finished(ix, [], last)
  {
  }

  /** Main result on paging, about the store's own listings: the rows a caller collects are the walk
      over what there was to list at each page, and a record that stayed in it under an unchanged sort
      key is among them exactly once. */
  method FollowPages(view: View, namespace: string, q: Query, stages: seq<Stage>)
    returns (rows: seq<OrderedRecord>, finished: bool, ghost visits: seq<Visit>)
    requires view.Valid() && PositiveOrders(view.records)
    requires ValidName(namespace) && ValidQuery(q) && forall i :: 0 <= i < |stages| ==> ValidOrderedLimit(stages[i].limit)
    modifies view
    ensures view.Valid() && rows == Walk(IndexOf(q), visits, None) && (finished <==> Finished(IndexOf(q), visits, None))
    ensures Visited(q, old(view.records), stages, visits) && (!finished ==> |visits| == |stages|)
    ensures forall rec :: finished && Steady(IndexOf(q), visits, rec) ==>
              && (exists k :: 0 <= k < |rows| && rows[k].id == rec.id)
              && (forall j, k :: 0 <= j < k < |rows| ==> !(rows[j].id == rec.id && rows[k].id == rec.id))
  {
    hide After, Before, ValidName, Walk, Finished, Sorted, Cut, Steady, Proper, Visited;
    rows, finished, visits := FollowFrom(view, namespace, q, stages, AT_START, None);
    forall rec | finished && Steady(IndexOf(q), visits, rec)
      ensures exists k :: 0 <= k < |rows| && rows[k].id == rec.id
      ensures forall j, k :: 0 <= j < k < |rows| ==> !(rows[j].id == rec.id && rows[k].id == rec.id)
    {
      SteadyRecordReturnedOnce(IndexOf(q), visits, rec);
    }
  }
}
