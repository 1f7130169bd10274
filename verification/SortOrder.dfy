/** The two frozen sort keys and the acceptance order, as strict total orders, and
    what it means for a slice of identities to be the sorted listing of a group. */
module SortOrder {
  import opened Storage

  // ---- byte-wise string order ----------------------------------------------

  predicate StrLess(a: string, b: string) {
    if b == "" then false
    else if a == "" then true
    else a[0] < b[0] || (a[0] == b[0] && StrLess(a[1..], b[1..]))
  }

  /** b goes on, or is larger, at position k, before which a and b agree. */
  predicate LessAt(a: string, b: string, k: nat) {
    k <= |a| && k < |b| && (forall i :: 0 <= i < k ==> a[i] == b[i]) && (k < |a| ==> (a[k] as int) < (b[k] as int))
  }

  /** Smaller at the first position where they differ, or a proper beginning. */
  lemma StrLessAtFirstDifference(a: string, b: string)
    ensures StrLess(a, b) <==> exists k: nat :: LessAt(a, b, k)
  {
    if StrLess(a, b) { var k := DifferenceOf(a, b); }
    forall k: nat | LessAt(a, b, k) ensures StrLess(a, b) { LessFrom(a, b, k); }
  }

  lemma {:induction false} DifferenceOf(a: string, b: string) returns (k: nat)
    requires StrLess(a, b)
    ensures LessAt(a, b, k)
  {
    if a == "" || a[0] < b[0] { return 0; }
    var n := DifferenceOf(a[1..], b[1..]);
    k := n + 1;
    assert forall i :: 0 < i < k ==> a[i] == a[1..][i - 1] && b[i] == b[1..][i - 1];
  }

  lemma {:induction false} LessFrom(a: string, b: string, k: nat)
    requires LessAt(a, b, k)
    ensures StrLess(a, b)
  {
    if k > 0 {
      assert forall i :: 0 <= i < k - 1 ==> a[1..][i] == a[i + 1] && b[1..][i] == b[i + 1];
      LessFrom(a[1..], b[1..], k - 1);
    }
  }

  lemma {:induction false} StrIrreflexive(a: string)
    ensures !StrLess(a, a)
  {
    if a != "" { StrIrreflexive(a[1..]); }
  }

  lemma {:induction false} StrTransitive(a: string, b: string, c: string)
    requires StrLess(a, b) && StrLess(b, c)
    ensures StrLess(a, c)
  {
    if a != "" && a[0] == b[0] == c[0] { StrTransitive(a[1..], b[1..], c[1..]); }
  }

  lemma {:induction false} StrTotal(a: string, b: string)
    ensures StrLess(a, b) || StrLess(b, a) || a == b
  {
    if a != "" && b != "" && a[0] == b[0] {
      StrTotal(a[1..], b[1..]);
      assert a == [a[0]] + a[1..] && b == [b[0]] + b[1..];
    }
  }

  // ---- record orders -------------------------------------------------------

  datatype Index = ByOrder | ByRank | ByDue

  /** Descending (rank, stable key, ordering scope). */
  predicate RankedBefore(left: OrderedRecord, right: OrderedRecord) {
    if left.rank.value != right.rank.value then left.rank.value > right.rank.value
    else if left.id.stableKey != right.id.stableKey then StrLess(right.id.stableKey, left.id.stableKey)
    else StrLess(right.id.orderingScope, left.id.orderingScope)
  }

  function Millis(due: Due): int64 {
    if due.DueAt? then due.unixMillis else 0
  }

  /** Ascending (due time, stable key, ordering scope). */
  predicate DueBefore(left: OrderedRecord, right: OrderedRecord) {
    if Millis(left.due) != Millis(right.due) then Millis(left.due) < Millis(right.due)
    else if left.id.stableKey != right.id.stableKey then StrLess(left.id.stableKey, right.id.stableKey)
    else StrLess(left.id.orderingScope, right.id.orderingScope)
  }

  predicate Before(ix: Index, left: OrderedRecord, right: OrderedRecord) {
    match ix
    case ByOrder => left.order < right.order
    case ByRank => RankedBefore(left, right)
    case ByDue => DueBefore(left, right)
  }

  /** Equal sort keys. */
  predicate SameKey(ix: Index, left: OrderedRecord, right: OrderedRecord) {
    match ix
    case ByOrder => left.order == right.order
    case ByRank => left.rank.value == right.rank.value && left.id == right.id
    case ByDue => Millis(left.due) == Millis(right.due) && left.id == right.id
  }

  lemma BeforeTransitive(ix: Index, a: OrderedRecord, b: OrderedRecord, c: OrderedRecord)
    requires Before(ix, a, b) && Before(ix, b, c)
    ensures Before(ix, a, c)
  {
    hide StrLess;
    StrIrreflexive(a.id.stableKey);
    if StrLess(a.id.stableKey, b.id.stableKey) && StrLess(b.id.stableKey, c.id.stableKey) {
      StrTransitive(a.id.stableKey, b.id.stableKey, c.id.stableKey);
    }
    if StrLess(c.id.stableKey, b.id.stableKey) && StrLess(b.id.stableKey, a.id.stableKey) {
      StrTransitive(c.id.stableKey, b.id.stableKey, a.id.stableKey);
    }
    if StrLess(a.id.orderingScope, b.id.orderingScope) && StrLess(b.id.orderingScope, c.id.orderingScope) {
      StrTransitive(a.id.orderingScope, b.id.orderingScope, c.id.orderingScope);
    }
    if StrLess(c.id.orderingScope, b.id.orderingScope) && StrLess(b.id.orderingScope, a.id.orderingScope) {
      StrTransitive(c.id.orderingScope, b.id.orderingScope, a.id.orderingScope);
    }
  }

  /** Exactly one of: before, after, the same key. Without the ordering-scope tiebreaker two
      distinct records could share a position. */
  lemma BeforeTrichotomy(ix: Index, a: OrderedRecord, b: OrderedRecord)
    ensures SameKey(ix, a, b) <==> !Before(ix, a, b) && !Before(ix, b, a)
    ensures !(Before(ix, a, b) && Before(ix, b, a))
  {
    if Before(ix, a, b) && Before(ix, b, a) { BeforeTransitive(ix, a, b, a); }
    hide StrLess;
    StrIrreflexive(a.id.stableKey);
    StrIrreflexive(a.id.orderingScope);
    StrTotal(a.id.stableKey, b.id.stableKey);
    StrTotal(a.id.orderingScope, b.id.orderingScope);
  }

  lemma BeforeRespectsKey(ix: Index, a: OrderedRecord, b: OrderedRecord, c: OrderedRecord)
    requires SameKey(ix, a, b)
    ensures Before(ix, a, c) == Before(ix, b, c)
    ensures Before(ix, c, a) == Before(ix, c, b)
  {
  }

  // ---- sorted listings -----------------------------------------------------

  predicate Belongs(ix: Index, group: string, rec: OrderedRecord) {
    match ix
    case ByOrder => rec.id.orderingScope == group
    case ByRank => !rec.deleted && rec.rank.ranked && rec.rankingScope == group
    case ByDue => !rec.deleted && rec.due.DueAt?
  }

  ghost predicate SortedBy(ix: Index, records: map<Identity, OrderedRecord>, entries: seq<Identity>) {
    && (forall i :: 0 <= i < |entries| ==> entries[i] in records)
    && (forall i, j :: 0 <= i < j < |entries| ==> Before(ix, records[entries[i]], records[entries[j]]))
  }

  /** entries is the sorted listing of group: every member once, in order, and nothing else. */
  ghost predicate Listing(ix: Index, group: string, records: map<Identity, OrderedRecord>, entries: seq<Identity>) {
    && SortedBy(ix, records, entries)
    && (forall id :: id in entries <==> id in records && Belongs(ix, group, records[id]))
  }

  lemma SortedHasNoDuplicates(ix: Index, records: map<Identity, OrderedRecord>, entries: seq<Identity>, i: nat, j: nat)
    requires SortedBy(ix, records, entries) && i < j < |entries|
    ensures entries[i] != entries[j]
  {
    BeforeTrichotomy(ix, records[entries[i]], records[entries[i]]);
  }

  /** There is only one such listing, so the index is a function of the records. */
  lemma {:induction false} ListingIsUnique(ix: Index, group: string, records: map<Identity, OrderedRecord>, a: seq<Identity>, b: seq<Identity>)
    requires Listing(ix, group, records, a) && Listing(ix, group, records, b)
    ensures a == b
  {
    SameMembersSameOrder(ix, records, a, b);
  }

  lemma SomeMember(entries: seq<Identity>)
    ensures entries != [] ==> entries[0] in entries
  {
  }

  lemma {:induction false} SameMembersSameOrder(ix: Index, records: map<Identity, OrderedRecord>, a: seq<Identity>, b: seq<Identity>)
    requires SortedBy(ix, records, a) && SortedBy(ix, records, b)
    requires forall id :: id in a <==> id in b
    ensures a == b
  {
    hide Before;
    if a == [] {
      SomeMember(b);
    } else {
      assert a[0] in b;
      FirstIsFirst(ix, records, a, b);
      forall id ensures id in a[1..] <==> id in b[1..] {
        assert a == [a[0]] + a[1..] && b == [b[0]] + b[1..];
        NotInTail(ix, records, a);
        NotInTail(ix, records, b);
        assert id in a <==> id == a[0] || id in a[1..];
        assert id in b <==> id == b[0] || id in b[1..];
      }
      SameMembersSameOrder(ix, records, a[1..], b[1..]);
      assert a == [a[0]] + a[1..] && b == [b[0]] + b[1..];
    }
  }

  lemma NotInTail(ix: Index, records: map<Identity, OrderedRecord>, entries: seq<Identity>)
    requires SortedBy(ix, records, entries) && entries != []
    ensures entries[0] !in entries[1..]
  {
    hide Before;
    if entries[0] in entries[1..] {
      var k :| 0 <= k < |entries| - 1 && entries[1..][k] == entries[0];
      SortedHasNoDuplicates(ix, records, entries, 0, k + 1);
    }
  }

  lemma FirstIsFirst(ix: Index, records: map<Identity, OrderedRecord>, a: seq<Identity>, b: seq<Identity>)
    requires SortedBy(ix, records, a) && SortedBy(ix, records, b) && a != [] && b != []
    requires a[0] in b && b[0] in a
    ensures a[0] == b[0]
  {
    hide Before;
    var i :| 0 <= i < |b| && b[i] == a[0];
    var j :| 0 <= j < |a| && a[j] == b[0];
    BeforeTrichotomy(ix, records[a[0]], records[b[0]]);
  }

  // ---- maintaining a listing -----------------------------------------------

  lemma MembersWithout(s: seq<Identity>, at: nat, id: Identity)
    requires at < |s|
    ensures id in s <==> id == s[at] || id in s[..at] + s[at + 1..]
  {
  }

  lemma SortedWithout(ix: Index, records: map<Identity, OrderedRecord>, entries: seq<Identity>, at: nat)
    requires SortedBy(ix, records, entries) && at < |entries|
    ensures entries[at] !in entries[..at] + entries[at + 1..]
    ensures SortedBy(ix, records - {entries[at]}, entries[..at] + entries[at + 1..])
  {
    hide Before;
    var rest := entries[..at] + entries[at + 1..];
    forall i | 0 <= i < |rest| ensures rest[i] != entries[at] {
      if i < at { SortedHasNoDuplicates(ix, records, entries, i, at); }
      else { SortedHasNoDuplicates(ix, records, entries, at, i + 1); }
    }
  }

  lemma ListingWithout(ix: Index, group: string, records: map<Identity, OrderedRecord>, entries: seq<Identity>, at: nat)
    requires Listing(ix, group, records, entries) && at < |entries|
    ensures Listing(ix, group, records - {entries[at]}, entries[..at] + entries[at + 1..])
  {
    hide Before, Belongs, SortedBy;
    SortedWithout(ix, records, entries, at);
    var rest := entries[..at] + entries[at + 1..];
    forall id ensures id in rest <==> id in records - {entries[at]} && Belongs(ix, group, records[id]) {
      MembersWithout(entries, at, id);
    }
  }

  lemma ListingNeverHad(ix: Index, group: string, records: map<Identity, OrderedRecord>, entries: seq<Identity>, key: Identity)
    requires Listing(ix, group, records, entries) && key !in entries
    ensures Listing(ix, group, records - {key}, entries)
  {
  }

  lemma SortedWith(ix: Index, records: map<Identity, OrderedRecord>, entries: seq<Identity>, key: Identity, at: nat)
    requires key in records && SortedBy(ix, records - {key}, entries) && at <= |entries|
    requires forall i :: 0 <= i < at ==> Before(ix, records[entries[i]], records[key])
    requires forall i :: at <= i < |entries| ==> Before(ix, records[key], records[entries[i]])
    ensures SortedBy(ix, records, entries[..at] + [key] + entries[at..])
  {
  }

  lemma ListingWith(ix: Index, group: string, records: map<Identity, OrderedRecord>, entries: seq<Identity>, key: Identity, at: nat)
    requires key in records && Belongs(ix, group, records[key])
    requires Listing(ix, group, records - {key}, entries) && at <= |entries|
    requires forall i :: 0 <= i < at ==> Before(ix, records[entries[i]], records[key])
    requires forall i :: at <= i < |entries| ==> Before(ix, records[key], records[entries[i]])
    ensures Listing(ix, group, records, entries[..at] + [key] + entries[at..])
  {
    hide Before, Belongs;
    SortedWith(ix, records, entries, key, at);
    hide SortedBy;
    var full := entries[..at] + [key] + entries[at..];
    forall id ensures id in full <==> id in records && Belongs(ix, group, records[id]) {
      MembersWithout(full, at, id);
      assert full[..at] + full[at + 1..] == entries;
    }
  }

  lemma ListingStays(ix: Index, group: string, records: map<Identity, OrderedRecord>, entries: seq<Identity>, key: Identity)
    requires key in records && !Belongs(ix, group, records[key])
    requires Listing(ix, group, records - {key}, entries)
    ensures Listing(ix, group, records, entries)
  {
  }
}
