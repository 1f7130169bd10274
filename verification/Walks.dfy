/** Following the cursors of one listing to the end. Each page is cut from whatever
    the listing has become by then: records come, go and move between pages. */
module Walks {
  import opened Storage
  import opened SortOrder
  import opened OrderedView
  import opened Listings

  /** One page request: the listing at that moment, and the page limit. */
  datatype Visit = Visit(rows: seq<OrderedRecord>, limit: nat)

  predicate Done(ix: Index, rest: seq<OrderedRecord>, limit: nat) {
    if ix == ByOrder then Cut(rest, limit) == [] else |rest| <= limit
  }

  /** Everything returned by the pages a caller fetches, starting after probe. The ranked and due
      listings end on the page that exhausts them; the acceptance stream ends on an empty page. */
  function Walk(ix: Index, visits: seq<Visit>, probe: Option<OrderedRecord>): seq<OrderedRecord> {
    if visits == [] then []
    else
      var rest := After(ix, visits[0].rows, probe);
      var page := Cut(rest, visits[0].limit);
      if Done(ix, rest, visits[0].limit) || page == [] then page
      else page + Walk(ix, visits[1..], Some(page[|page| - 1]))
  }

  /** The caller reached the end rather than stopping early. */
  predicate Finished(ix: Index, visits: seq<Visit>, probe: Option<OrderedRecord>) {
    if visits == [] then false
    else
      var rest := After(ix, visits[0].rows, probe);
      var page := Cut(rest, visits[0].limit);
      Done(ix, rest, visits[0].limit) || (page != [] && Finished(ix, visits[1..], Some(page[|page| - 1])))
  }

  ghost predicate Proper(ix: Index, visits: seq<Visit>) {
    forall i :: 0 <= i < |visits| ==> 0 < visits[i].limit && Sorted(ix, visits[i].rows)
  }

  /** rec's identity is in every listing visited, always under rec's sort key. */
  ghost predicate Steady(ix: Index, visits: seq<Visit>, rec: OrderedRecord) {
    forall v :: 0 <= v < |visits| ==>
      && Present(ix, visits[v].rows, rec)
      && (forall i :: 0 <= i < |visits[v].rows| && visits[v].rows[i].id == rec.id ==> SameKey(ix, visits[v].rows[i], rec))
  }

  ghost predicate Present(ix: Index, rows: seq<OrderedRecord>, rec: OrderedRecord) {
    exists i :: 0 <= i < |rows| && rows[i].id == rec.id && SameKey(ix, rows[i], rec)
  }

  /** A page is sorted, lies after the cursor, and leaves behind only rows beyond its last one. */
  lemma PageFacts(ix: Index, visit: Visit, probe: Option<OrderedRecord>, page: seq<OrderedRecord>)
    requires Sorted(ix, visit.rows) && 0 < visit.limit
    requires page == Cut(After(ix, visit.rows, probe), visit.limit)
    ensures Sorted(ix, page)
    ensures forall i :: 0 <= i < |page| ==> page[i] in visit.rows && Follows(ix, probe, page[i])
    ensures page == [] <==> After(ix, visit.rows, probe) == []
    ensures forall rec :: rec in visit.rows && Follows(ix, probe, rec) && rec !in page ==>
              page != [] && !Done(ix, After(ix, visit.rows, probe), visit.limit) && Before(ix, page[|page| - 1], rec)
  {
    hide Before;
    var rest := After(ix, visit.rows, probe);
    AfterFacts(ix, visit.rows, probe);
    forall i | 0 <= i < |page| ensures page[i] in visit.rows && Follows(ix, probe, page[i]) { assert page[i] in rest; }
    forall rec | rec in rest && rec !in page ensures |page| < |rest| && Before(ix, page[|page| - 1], rec) {
      var k :| 0 <= k < |rest| && rest[k] == rec;
      assert forall j :: 0 <= j < |page| ==> page[j] == rest[j];
    }
  }

  /** One page of a walk, written out. */
  lemma WalkUnfolds(ix: Index, visits: seq<Visit>, probe: Option<OrderedRecord>, rest: seq<OrderedRecord>)
    requires visits != [] && 0 < visits[0].limit && rest == After(ix, visits[0].rows, probe)
    ensures var page := Cut(rest, visits[0].limit);
            if Done(ix, rest, visits[0].limit) then Finished(ix, visits, probe) && Walk(ix, visits, probe) == page == rest
            else
              && page != []
              && Walk(ix, visits, probe) == page + Walk(ix, visits[1..], Some(page[|page| - 1]))
              && Finished(ix, visits, probe) == Finished(ix, visits[1..], Some(page[|page| - 1]))
  {
  }

  /** Page after page the walk only moves forward. */
  lemma {:induction false} WalkIsSorted(ix: Index, visits: seq<Visit>, probe: Option<OrderedRecord>)
    requires Proper(ix, visits)
    ensures Sorted(ix, Walk(ix, visits, probe))
    ensures forall i :: 0 <= i < |Walk(ix, visits, probe)| ==> Follows(ix, probe, Walk(ix, visits, probe)[i])
  {
    hide Before;
    if visits != [] {
      var rest := After(ix, visits[0].rows, probe);
      var page := Cut(rest, visits[0].limit);
      PageFacts(ix, visits[0], probe, page);
      if !Done(ix, rest, visits[0].limit) && page != [] {
        var last := page[|page| - 1];
        var tail := Walk(ix, visits[1..], Some(last));
        WalkIsSorted(ix, visits[1..], Some(last));
        forall i, j | 0 <= i < |page| && 0 <= j < |tail| ensures Before(ix, page[i], tail[j]) {
          if i < |page| - 1 { BeforeTransitive(ix, page[i], last, tail[j]); }
        }
        forall j | 0 <= j < |tail| ensures Follows(ix, probe, tail[j]) {
          if probe.Some? { BeforeTransitive(ix, probe.value, last, tail[j]); }
        }
      }
    }
  }

  lemma {:induction false} WalkFinds(ix: Index, visits: seq<Visit>, probe: Option<OrderedRecord>, rec: OrderedRecord)
    requires Proper(ix, visits) && Finished(ix, visits, probe)
    requires Steady(ix, visits, rec) && Follows(ix, probe, rec)
    ensures Present(ix, Walk(ix, visits, probe), rec)
  {
    hide Before, SameKey, After, Sorted, Walk;
    var rest := After(ix, visits[0].rows, probe);
    var page := Cut(rest, visits[0].limit);
    WalkUnfolds(ix, visits, probe, rest);
    PageFacts(ix, visits[0], probe, page);
    assert Present(ix, visits[0].rows, rec);
    var i :| 0 <= i < |visits[0].rows| && visits[0].rows[i].id == rec.id && SameKey(ix, visits[0].rows[i], rec);
    var row := visits[0].rows[i];
    SameKeyFollows(ix, probe, row, rec);
    var walk := Walk(ix, visits, probe);
    if row in page {
      var k :| 0 <= k < |page| && page[k] == row;
      assert walk[k] == row;
    } else {
      var last := page[|page| - 1];
      SameKeyFollows(ix, Some(last), row, rec);
      WalkFinds(ix, visits[1..], Some(last), rec);
      var tail := Walk(ix, visits[1..], Some(last));
      var k :| 0 <= k < |tail| && tail[k].id == rec.id && SameKey(ix, tail[k], rec);
      assert walk[|page| + k] == tail[k];
    }
  }

  lemma SameKeyFollows(ix: Index, probe: Option<OrderedRecord>, a: OrderedRecord, b: OrderedRecord)
    requires SameKey(ix, a, b)
    ensures Follows(ix, probe, a) == Follows(ix, probe, b)
  {
  }

  lemma {:induction false} WalkRowsAreVisited(ix: Index, visits: seq<Visit>, probe: Option<OrderedRecord>, k: nat) returns (v: nat, i: nat)
    requires Proper(ix, visits) && k < |Walk(ix, visits, probe)|
    ensures v < |visits| && i < |visits[v].rows| && visits[v].rows[i] == Walk(ix, visits, probe)[k]
  {
    hide Before;
    var rest := After(ix, visits[0].rows, probe);
    var page := Cut(rest, visits[0].limit);
    PageFacts(ix, visits[0], probe, page);
    if k < |page| {
      assert page[k] in visits[0].rows;
      i :| 0 <= i < |visits[0].rows| && visits[0].rows[i] == page[k];
      v := 0;
    } else {
      v, i := WalkRowsAreVisited(ix, visits[1..], Some(page[|page| - 1]), k - |page|);
      v := v + 1;
    }
  }

  /** Main result on paging: however the listing changes between pages, a record that stays in it
      under an unchanged sort key for the whole walk is returned exactly once. */
  lemma SteadyRecordReturnedOnce(ix: Index, visits: seq<Visit>, rec: OrderedRecord)
    requires Proper(ix, visits) && Finished(ix, visits, None) && Steady(ix, visits, rec)
    ensures exists k :: 0 <= k < |Walk(ix, visits, None)| && Walk(ix, visits, None)[k].id == rec.id
    ensures forall j, k :: 0 <= j < k < |Walk(ix, visits, None)| ==>
              !(Walk(ix, visits, None)[j].id == rec.id && Walk(ix, visits, None)[k].id == rec.id)
  {
    hide Before, SameKey, Walk, Finished;
    var walk := Walk(ix, visits, None);
    WalkFinds(ix, visits, None, rec);
    WalkIsSorted(ix, visits, None);
    forall j, k | 0 <= j < k < |walk| ensures !(walk[j].id == rec.id && walk[k].id == rec.id) {
      if walk[j].id == rec.id && walk[k].id == rec.id {
        var v, i := WalkRowsAreVisited(ix, visits, None, j);
        var w, h := WalkRowsAreVisited(ix, visits, None, k);
        BeforeRespectsKey(ix, walk[j], rec, walk[k]);
        BeforeRespectsKey(ix, walk[k], rec, rec);
        BeforeTrichotomy(ix, rec, rec);
        assert false;
      }
    }
  }

  // ---- a view that stands still --------------------------------------------

  ghost predicate Fixed(rows: seq<OrderedRecord>, visits: seq<Visit>) {
    forall v :: 0 <= v < |visits| ==> visits[v].rows == rows && 0 < visits[v].limit
  }

  lemma SuffixAfterOwnRow(ix: Index, rows: seq<OrderedRecord>, done: nat)
    requires Sorted(ix, rows) && done <= |rows|
    ensures After(ix, rows, if done == 0 then None else Some(rows[done - 1])) == rows[done..]
  {
    hide Before;
    if done > 0 {
      forall i | 0 <= i < done ensures !Before(ix, rows[done - 1], rows[i]) { BeforeTrichotomy(ix, rows[done - 1], rows[i]); }
    }
    AfterIsSuffix(ix, rows, if done == 0 then None else Some(rows[done - 1]), done);
  }

  lemma PageJoins(rows: seq<OrderedRecord>, done: nat, limit: nat)
    requires done <= |rows| && 0 < limit && Cut(rows[done..], limit) != []
    ensures var page := Cut(rows[done..], limit);
            && done + |page| <= |rows|
            && page[|page| - 1] == rows[done + |page| - 1]
            && page + rows[done + |page|..] == rows[done..]
  {
  }

  lemma {:induction false} FixedWalkFrom(ix: Index, rows: seq<OrderedRecord>, visits: seq<Visit>, done: nat)
    requires Sorted(ix, rows) && Fixed(rows, visits) && done <= |rows| && |rows| - done < |visits|
    ensures var probe := if done == 0 then None else Some(rows[done - 1]);
            Finished(ix, visits, probe) && Walk(ix, visits, probe) == rows[done..]
    decreases visits
  {
    hide After, Sorted, Walk, Finished, Cut;
    SuffixAfterOwnRow(ix, rows, done);
    var probe, rest, limit := if done == 0 then None else Some(rows[done - 1]), rows[done..], visits[0].limit;
    WalkUnfolds(ix, visits, probe, rest);
    if !Done(ix, rest, limit) {
      PageJoins(rows, done, limit);
      FixedWalkFrom(ix, rows, visits[1..], done + |Cut(rest, limit)|);
    }
  }

  /** Over an unchanged listing any positive page limits return it whole, with no gap and no repeat,
      within one page more than it has rows. */
  lemma {:induction false} FixedWalkIsTheListing(ix: Index, rows: seq<OrderedRecord>, visits: seq<Visit>)
    requires Sorted(ix, rows) && Fixed(rows, visits) && |rows| < |visits|
    ensures Finished(ix, visits, None) && Walk(ix, visits, None) == rows
  {
    FixedWalkFrom(ix, rows, visits, 0);
  }

  // ---- pages and cursors are those of the listings -------------------------

  /** A cursor carries a sort key, not a record; the key is all that a page depends on. */
  lemma {:induction false} AfterDependsOnKey(ix: Index, rows: seq<OrderedRecord>, p: OrderedRecord, q: OrderedRecord)
    requires SameKey(ix, p, q)
    ensures After(ix, rows, Some(p)) == After(ix, rows, Some(q))
  {
    hide Before, SameKey;
    if rows != [] {
      BeforeRespectsKey(ix, p, q, rows[0]);
      AfterDependsOnKey(ix, rows[1..], p, q);
    }
  }

  /** Starting after order zero is starting at the beginning. */
  lemma {:induction false} AfterZeroIsAll(rows: seq<OrderedRecord>)
    requires forall i :: 0 <= i < |rows| ==> 0 < rows[i].order
    ensures After(ByOrder, rows, Some(OrderProbe(0))) == After(ByOrder, rows, None) == rows
  {
    if rows != [] { AfterZeroIsAll(rows[1..]); }
  }
}
