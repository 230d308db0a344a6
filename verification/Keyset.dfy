/**
 Keyset pagination: fetch limit + 1 rows after a position, emit limit of them, continue from
 the last one emitted.  Shared by public browsing and the private lists.

 Rows are compared by a key that is unique within a snapshot of the table.
 */
module Keyset {
  import opened Common

  // ORDER BY value, slug; slugs compare byte by byte (collation ascii_bin).
  datatype Key = Key(value: int, slug: string)

  predicate SlugLess(a: string, b: string) {
    b != "" && (a == "" || a[0] < b[0] || (a[0] == b[0] && SlugLess(a[1..], b[1..])))
  }

  // Up to `k` they agree; there `a` ends, or has the smaller character.
  predicate LessAt(a: string, b: string, k: nat) {
    k <= |a| && k < |b| && a[..k] == b[..k] && (k == |a| || a[k] < b[k])
  }

  ghost predicate Lexicographic(a: string, b: string) {
    exists k: nat :: LessAt(a, b, k)
  }

  /** The order of slugs is the lexicographic one. */
  lemma {:induction false} SlugLessMeans(a: string, b: string)
    ensures SlugLess(a, b) <==> Lexicographic(a, b)
  {
    if a == "" || b == "" || a[0] != b[0] {
      assert LessAt(a, b, 0) <==> SlugLess(a, b);
      assert forall k: nat :: LessAt(a, b, k) && k > 0 ==> a[..k][0] == b[..k][0];
    } else {
      SlugLessMeans(a[1..], b[1..]);
      assert a == [a[0]] + a[1..] && b == [b[0]] + b[1..];
      if k: nat :| LessAt(a, b, k) {
        assert k > 0 && a[1..][..k - 1] == a[..k][1..] && b[1..][..k - 1] == b[..k][1..];
        assert LessAt(a[1..], b[1..], k - 1);
      }
      if k: nat :| LessAt(a[1..], b[1..], k) {
        assert a[..k + 1] == [a[0]] + a[1..][..k] && b[..k + 1] == [b[0]] + b[1..][..k];
        assert LessAt(a, b, k + 1);
      }
    }
  }

  predicate KeyLess(a: Key, b: Key) {
    a.value < b.value || (a.value == b.value && SlugLess(a.slug, b.slug))
  }

  // The row order of the page: ascending, or descending in both columns.
  predicate Precedes(ascending: bool, a: Key, b: Key) {
    if ascending then KeyLess(a, b) else KeyLess(b, a)
  }

  lemma {:induction false} SlugOrder(a: string, b: string, c: string)
    ensures !SlugLess(a, a)
    ensures SlugLess(a, b) && SlugLess(b, c) ==> SlugLess(a, c)
    ensures a != b ==> SlugLess(a, b) || SlugLess(b, a)
  {
    if a != "" && b != "" {
      SlugOrder(a[1..], b[1..], if c == "" then "" else c[1..]);
      if a[0] == b[0] && a[1..] == b[1..] {
        assert a == [a[0]] + a[1..] && b == [b[0]] + b[1..];
      }
    } else if a != "" {
      SlugOrder(a[1..], "", "");
    }
  }

  lemma PrecedesOrder(ascending: bool, a: Key, b: Key, c: Key)
    ensures !Precedes(ascending, a, a)
    ensures Precedes(ascending, a, b) && Precedes(ascending, b, c) ==> Precedes(ascending, a, c)
    ensures a != b ==> Precedes(ascending, a, b) || Precedes(ascending, b, a)
  {
    SlugOrder(a.slug, b.slug, c.slug);
    SlugOrder(c.slug, b.slug, a.slug);
  }

  /******* Sorting *******/

  // A selected row: its key and its primary key.
  datatype Row = Row(key: Key, id: int)

  ghost predicate Sorted(ascending: bool, rows: seq<Row>) {
    forall i, j :: 0 <= i < j < |rows| ==> Precedes(ascending, rows[i].key, rows[j].key)
  }

  ghost predicate DistinctKeys(rows: seq<Row>) {
    forall i, j :: 0 <= i < j < |rows| ==> rows[i].key != rows[j].key
  }

  function Insert(ascending: bool, r: Row, rows: seq<Row>): seq<Row> {
    if rows == [] || Precedes(ascending, r.key, rows[0].key) then [r] + rows
    else [rows[0]] + Insert(ascending, r, rows[1..])
  }

  function Sort(ascending: bool, rows: seq<Row>): seq<Row> {
    if rows == [] then [] else Insert(ascending, rows[0], Sort(ascending, rows[1..]))
  }

  lemma {:induction false} InsertSorted(ascending: bool, r: Row, rows: seq<Row>)
    requires Sorted(ascending, rows) && forall x <- rows :: x.key != r.key
    ensures Sorted(ascending, Insert(ascending, r, rows))
    ensures forall x :: x in Insert(ascending, r, rows) <==> x == r || x in rows
    ensures |Insert(ascending, r, rows)| == |rows| + 1
  {
    if rows != [] {
      var head, tail := rows[0], rows[1..];
      assert rows == [head] + tail;
      if Precedes(ascending, r.key, head.key) {
        forall i | 0 <= i < |rows|
          ensures Precedes(ascending, r.key, rows[i].key)
        {
          PrecedesOrder(ascending, r.key, head.key, rows[i].key);
        }
      } else {
        InsertSorted(ascending, r, tail);
        var rest := Insert(ascending, r, tail);
        PrecedesOrder(ascending, r.key, head.key, r.key);
        assert head in rows;
        forall i | 0 <= i < |rest|
          ensures Precedes(ascending, head.key, rest[i].key)
        {
          assert rest[i] in rest;
          if rest[i] != r {
            var k :| 0 <= k < |tail| && tail[k] == rest[i];
            assert rows[k + 1] == rest[i];
          }
        }
      }
    }
  }

  lemma {:induction false} SortSorts(ascending: bool, rows: seq<Row>)
    requires DistinctKeys(rows)
    ensures Sorted(ascending, Sort(ascending, rows)) && |Sort(ascending, rows)| == |rows|
    ensures forall x :: x in Sort(ascending, rows) <==> x in rows
  {
    if rows != [] {
      var head, tail := rows[0], rows[1..];
      assert rows == [head] + tail;
      SortSorts(ascending, tail);
      forall x | x in Sort(ascending, tail)
        ensures x.key != head.key
      {
        assert x in tail;
        var i :| 0 <= i < |tail| && tail[i] == x;
        assert rows[i + 1] == x;
      }
      InsertSorted(ascending, head, Sort(ascending, tail));
    }
  }

  /** There is only one way to put a set of rows in order. */
  lemma {:induction false} SortedIsUnique(ascending: bool, a: seq<Row>, b: seq<Row>)
    requires Sorted(ascending, a) && Sorted(ascending, b) && forall x :: x in a <==> x in b
    ensures a == b
  {
    assert (a != [] ==> a[0] in a) && (b != [] ==> b[0] in b);
    if a != [] && b != [] {
      assert a[0] in b && b[0] in a;
      var i :| 0 <= i < |b| && b[i] == a[0];
      var j :| 0 <= j < |a| && a[j] == b[0];
      PrecedesOrder(ascending, a[0].key, b[0].key, a[0].key);
      assert a == [a[0]] + a[1..] && b == [b[0]] + b[1..];
      forall x
        ensures x in a[1..] <==> x in b[1..]
      {
        TailMembers(ascending, a, x);
        TailMembers(ascending, b, x);
      }
      SortedIsUnique(ascending, a[1..], b[1..]);
    }
  }

  lemma TailMembers(ascending: bool, a: seq<Row>, x: Row)
    requires Sorted(ascending, a) && a != []
    ensures x in a[1..] <==> x in a && x != a[0]
  {
    assert a == [a[0]] + a[1..];
    PrecedesOrder(ascending, a[0].key, a[0].key, a[0].key);
    if x in a[1..] {
      var i :| 0 <= i < |a[1..]| && a[1..][i] == x;
      assert a[i + 1] == x;
    }
  }

  /******* Pages *******/

  // The WHERE clause of the continuation.
  predicate Beyond(ascending: bool, position: Option<Key>, k: Key) {
    position.None? || Precedes(ascending, position.value, k)
  }

  function After(ascending: bool, position: Option<Key>, rows: seq<Row>): seq<Row> {
    if rows == [] then []
    else (if Beyond(ascending, position, rows[0].key) then [rows[0]] else []) + After(ascending, position, rows[1..])
  }

  lemma {:induction false} AfterMembers(ascending: bool, position: Option<Key>, rows: seq<Row>)
    ensures forall x :: x in After(ascending, position, rows) <==> x in rows && Beyond(ascending, position, x.key)
    ensures DistinctKeys(rows) ==> DistinctKeys(After(ascending, position, rows))
  {
    if rows != [] {
      var head, tail := rows[0], rows[1..];
      assert rows == [head] + tail;
      AfterMembers(ascending, position, tail);
      if DistinctKeys(rows) {
        var rest := After(ascending, position, tail);
        forall i | 0 <= i < |rest|
          ensures rest[i].key != head.key
        {
          assert rest[i] in rest && rest[i] in tail;
          var j :| 0 <= j < |tail| && tail[j] == rest[i];
          assert rows[j + 1] == rest[i];
        }
      }
    }
  }

  datatype Page = Page(items: seq<Row>, next: Option<Key>)

  // One request against a snapshot: LIMIT limit + 1, emit limit, continue from the last emitted.
  function FetchPage(ascending: bool, snapshot: seq<Row>, position: Option<Key>, limit: nat): Page
    requires limit >= 1
  {
    var ordered := Sort(ascending, After(ascending, position, snapshot));
    var rows := if |ordered| > limit + 1 then ordered[..limit + 1] else ordered;
    var emitted := if |rows| > limit then rows[..limit] else rows;
    Page(emitted, if |rows| > limit then Some(emitted[|emitted| - 1].key) else None)
  }

  // The rows in page order, after a position.
  function Remaining(ascending: bool, position: Option<Key>, snapshot: seq<Row>): seq<Row> {
    Sort(ascending, After(ascending, position, snapshot))
  }

  lemma RemainingFacts(ascending: bool, position: Option<Key>, snapshot: seq<Row>)
    requires DistinctKeys(snapshot)
    ensures var s := Remaining(ascending, position, snapshot);
      Sorted(ascending, s) && forall x :: x in s <==> x in snapshot && Beyond(ascending, position, x.key)
  {
    AfterMembers(ascending, position, snapshot);
    SortSorts(ascending, After(ascending, position, snapshot));
  }

  lemma {:induction false} AllBehindNothing(ascending: bool, rows: seq<Row>)
    ensures After(ascending, None, rows) == rows
  {
    if rows != [] {
      AllBehindNothing(ascending, rows[1..]);
    }
  }

  // What one page emits, and what it leaves, in terms of the rows remaining.
  lemma PageFacts(ascending: bool, snapshot: seq<Row>, position: Option<Key>, limit: nat)
    requires limit >= 1
    ensures var s, page := Remaining(ascending, position, snapshot), FetchPage(ascending, snapshot, position, limit);
      if |s| > limit then page.items == s[..limit] && page.next == Some(s[limit - 1].key) else page == Page(s, None)
  {
    var s := Remaining(ascending, position, snapshot);
    if |s| > limit + 1 {
      assert s[..limit + 1][..limit] == s[..limit];
    }
  }

  // Continuing after a row leaves exactly the rows behind it.
  lemma Continue(ascending: bool, position: Option<Key>, snapshot: seq<Row>, n: nat)
    requires DistinctKeys(snapshot) && 1 <= n <= |Remaining(ascending, position, snapshot)|
    ensures var s := Remaining(ascending, position, snapshot);
      Remaining(ascending, Some(s[n - 1].key), snapshot) == s[n..]
  {
    var s := Remaining(ascending, position, snapshot);
    var last := s[n - 1];
    RemainingFacts(ascending, position, snapshot);
    RemainingFacts(ascending, Some(last.key), snapshot);
    forall x
      ensures x in s[n..] <==> x in snapshot && Precedes(ascending, last.key, x.key)
    {
      BehindMembers(ascending, s, n, x);
      assert last in s;
      assert x in s <==> x in snapshot && Beyond(ascending, position, x.key);
      if position.Some? {
        PrecedesOrder(ascending, position.value, last.key, x.key);
      }
    }
    SortedIsUnique(ascending, Remaining(ascending, Some(last.key), snapshot), s[n..]);
  }

  lemma BehindMembers(ascending: bool, s: seq<Row>, n: nat, x: Row)
    requires Sorted(ascending, s) && 1 <= n <= |s|
    ensures x in s[n..] <==> x in s && Precedes(ascending, s[n - 1].key, x.key)
  {
    if x in s[n..] {
      var i :| 0 <= i < |s[n..]| && s[n..][i] == x;
      assert s[n + i] == x;
    }
    if x in s && Precedes(ascending, s[n - 1].key, x.key) {
      var i :| 0 <= i < |s| && s[i] == x;
      PrecedesOrder(ascending, s[n - 1].key, x.key, s[n - 1].key);
      if i >= n { assert s[n..][i - n] == x; }
    }
  }

  /******* Walks *******/

  // The items of a client that follows `next`, one snapshot of the table per request.
  function Walk(ascending: bool, snapshots: seq<seq<Row>>, position: Option<Key>, limit: nat): seq<Row>
    requires limit >= 1
    decreases |snapshots|
  {
    if snapshots == [] then []
    else
      var page := FetchPage(ascending, snapshots[0], position, limit);
      page.items + if page.next.None? then [] else Walk(ascending, snapshots[1..], page.next, limit)
  }

  // The walk gets to a page without `next`.
  predicate Completes(ascending: bool, snapshots: seq<seq<Row>>, position: Option<Key>, limit: nat)
    requires limit >= 1
    decreases |snapshots|
  {
    snapshots != [] &&
    var page := FetchPage(ascending, snapshots[0], position, limit);
    page.next.None? || Completes(ascending, snapshots[1..], page.next, limit)
  }

  // How many requests the walk makes.
  function Requests(ascending: bool, snapshots: seq<seq<Row>>, position: Option<Key>, limit: nat): (n: nat)
    requires limit >= 1
    ensures n <= |snapshots|
    decreases |snapshots|
  {
    if snapshots == [] then 0
    else
      var page := FetchPage(ascending, snapshots[0], position, limit);
      1 + if page.next.None? then 0 else Requests(ascending, snapshots[1..], page.next, limit)
  }

  lemma {:induction false} UnchangedRequests(ascending: bool, table: seq<Row>, snapshots: seq<seq<Row>>,
                                             position: Option<Key>, limit: nat)
    requires limit >= 1 && DistinctKeys(table) && forall s <- snapshots :: s == table
    requires |snapshots| >= 1 && |snapshots| * limit >= |Remaining(ascending, position, table)|
    ensures PagesFit(Requests(ascending, snapshots, position, limit), limit, |Remaining(ascending, position, table)|)
    decreases |snapshots|
  {
    hide Remaining, FetchPage, PagesFit, DistinctKeys;
    assert snapshots[0] in snapshots;
    var s := Remaining(ascending, position, table);
    PageFacts(ascending, table, position, limit);
    if |s| > limit {
      var rest, next := snapshots[1..], Some(s[limit - 1].key);
      Continue(ascending, position, table, limit);
      FewerPages(|snapshots|, limit, |s|);
      assert forall x <- rest :: x in snapshots;
      UnchangedRequests(ascending, table, rest, next, limit);
      OneMorePage(Requests(ascending, rest, next, limit), limit, |s|);
    } else {
      OnePage(limit, |s|);
    }
  }

  /** On an unchanged table the walk emits exactly the rows after the start, in order, in
      ceil(rows / limit) requests (one when there are none). */
  lemma {:induction false} UnchangedWalk(ascending: bool, table: seq<Row>, snapshots: seq<seq<Row>>,
                                         position: Option<Key>, limit: nat)
    requires limit >= 1 && DistinctKeys(table) && forall s <- snapshots :: s == table
    requires |snapshots| >= 1 && |snapshots| * limit >= |Remaining(ascending, position, table)|
    ensures Completes(ascending, snapshots, position, limit)
    ensures Walk(ascending, snapshots, position, limit) == Remaining(ascending, position, table)
    ensures PagesFit(Requests(ascending, snapshots, position, limit), limit, |Remaining(ascending, position, table)|)
    decreases |snapshots|
  {
    hide Remaining, FetchPage, PagesFit, DistinctKeys, Requests;
    UnchangedRequests(ascending, table, snapshots, position, limit);
    assert snapshots[0] in snapshots;
    var s := Remaining(ascending, position, table);
    PageFacts(ascending, table, position, limit);
    if |s| > limit {
      var rest, next := snapshots[1..], Some(s[limit - 1].key);
      Continue(ascending, position, table, limit);
      FewerPages(|snapshots|, limit, |s|);
      assert forall x <- rest :: x in snapshots;
      UnchangedWalk(ascending, table, rest, next, limit);
      assert s == s[..limit] + s[limit..];
    }
  }

  // So many requests, and no fewer, for so many rows.
  predicate PagesFit(pages: nat, limit: nat, rows: nat) {
    rows <= pages * limit && (rows > 0 ==> (pages - 1) * limit < rows)
  }

  /** A walk from the beginning of an unchanged table. */
  lemma WholeWalk(ascending: bool, table: seq<Row>, snapshots: seq<seq<Row>>, limit: nat)
    requires limit >= 1 && DistinctKeys(table) && forall s <- snapshots :: s == table
    requires |snapshots| >= 1 && |snapshots| * limit >= |table|
    ensures var w := Walk(ascending, snapshots, None, limit);
      Sorted(ascending, w) && |w| == |table| && forall r :: r in w <==> r in table
    ensures PagesFit(Requests(ascending, snapshots, None, limit), limit, |table|)
  {
    hide Walk, Requests, Completes, Sorted, DistinctKeys, After, Sort;
    AllBehindNothing(ascending, table);
    SortSorts(ascending, table);
    assert Remaining(ascending, None, table) == Sort(ascending, table);
    UnchangedWalk(ascending, table, snapshots, None, limit);
  }

  lemma FewerPages(pages: nat, limit: nat, size: nat)
    requires pages * limit >= size > limit
    ensures pages >= 2 && (pages - 1) * limit >= size - limit
  {
    assert pages != 1;
    assert (pages - 1) * limit == pages * limit - limit;
  }

  lemma OneMorePage(pages: nat, limit: nat, size: nat)
    requires size > limit && PagesFit(pages, limit, size - limit)
    ensures PagesFit(pages + 1, limit, size)
  {
    assert (pages - 1) * limit == pages * limit - limit && (pages + 1) * limit == pages * limit + limit;
  }

  lemma OnePage(limit: nat, size: nat)
    requires size <= limit
    ensures PagesFit(1, limit, size)
  {
  }

  ghost predicate AllBeyond(ascending: bool, position: Option<Key>, rows: seq<Row>) {
    forall i :: 0 <= i < |rows| ==> Beyond(ascending, position, rows[i].key)
  }

  /** Whatever is written between requests, the emitted keys only move forward. */
  lemma {:induction false} WalkMovesForward(ascending: bool, snapshots: seq<seq<Row>>, position: Option<Key>,
                                            limit: nat)
    requires limit >= 1 && forall s <- snapshots :: DistinctKeys(s)
    ensures Sorted(ascending, Walk(ascending, snapshots, position, limit))
    ensures AllBeyond(ascending, position, Walk(ascending, snapshots, position, limit))
    decreases |snapshots|
  {
    hide Remaining, FetchPage, Beyond;
    if snapshots != [] {
      assert snapshots[0] in snapshots;
      var s := Remaining(ascending, position, snapshots[0]);
      var page := FetchPage(ascending, snapshots[0], position, limit);
      PageFacts(ascending, snapshots[0], position, limit);
      RemainingFacts(ascending, position, snapshots[0]);
      assert forall i :: 0 <= i < |page.items| ==> page.items[i] == s[i] && s[i] in s;
      if page.next.Some? {
        var rest := Walk(ascending, snapshots[1..], page.next, limit);
        WalkMovesForward(ascending, snapshots[1..], page.next, limit);
        JoinForward(ascending, position, page.items, rest);
      }
    }
  }

  lemma JoinForward(ascending: bool, position: Option<Key>, a: seq<Row>, b: seq<Row>)
    requires Sorted(ascending, a) && Sorted(ascending, b) && a != []
    requires AllBeyond(ascending, position, a) && AllBeyond(ascending, Some(a[|a| - 1].key), b)
    ensures Sorted(ascending, a + b) && AllBeyond(ascending, position, a + b)
  {
    var last := a[|a| - 1].key;
    forall j | 0 <= j < |b|
      ensures Beyond(ascending, position, b[j].key) && forall i :: 0 <= i < |a| ==>
          Precedes(ascending, a[i].key, b[j].key)
    {
      assert Beyond(ascending, Some(last), b[j].key);
      forall i | 0 <= i < |a|
        ensures Precedes(ascending, a[i].key, b[j].key)
      {
        PrecedesOrder(ascending, a[i].key, last, b[j].key);
      }
      if position.Some? {
        PrecedesOrder(ascending, position.value, last, b[j].key);
      }
    }
  }

  // The row is in every snapshot with this key.
  ghost predicate StaysVisible(snapshots: seq<seq<Row>>, k: Key) {
    forall s <- snapshots :: exists r <- s :: r.key == k
  }

  // Some emitted row has this key.
  ghost predicate Emits(w: seq<Row>, k: Key) {
    exists i :: 0 <= i < |w| && w[i].key == k
  }

  /** A row that stays visible with an unchanged key is emitted by every completed walk; since
      the emitted keys strictly move forward, it is emitted once. */
  lemma {:induction false} StableRowEmitted(ascending: bool, snapshots: seq<seq<Row>>, position: Option<Key>,
                                            limit: nat, k: Key)
    requires limit >= 1 && (forall s <- snapshots :: DistinctKeys(s))
        && Completes(ascending, snapshots, position, limit)
    requires StaysVisible(snapshots, k) && Beyond(ascending, position, k)
    ensures Emits(Walk(ascending, snapshots, position, limit), k)
    decreases |snapshots|
  {
    hide Remaining, FetchPage;
    var w := Walk(ascending, snapshots, position, limit);
    assert snapshots[0] in snapshots;
    var s := Remaining(ascending, position, snapshots[0]);
    var page := FetchPage(ascending, snapshots[0], position, limit);
    PageFacts(ascending, snapshots[0], position, limit);
    RemainingFacts(ascending, position, snapshots[0]);
    var r :| r in snapshots[0] && r.key == k;
    assert r in s;
    var i :| 0 <= i < |s| && s[i] == r;
    if |s| > limit {
      if i < limit {
        assert w[i] == page.items[i];
      } else {
        assert Precedes(ascending, s[limit - 1].key, s[i].key);
        assert forall t <- snapshots[1..] :: t in snapshots;
        StableRowEmitted(ascending, snapshots[1..], page.next, limit, k);
        var rest := Walk(ascending, snapshots[1..], page.next, limit);
        var j :| 0 <= j < |rest| && rest[j].key == k;
        assert w == page.items + rest;
        assert w[|page.items| + j] == rest[j];
      }
    } else {
      assert w[i] == s[i];
    }
  }

  /** No key is emitted twice. */
  lemma EmittedOnce(ascending: bool, snapshots: seq<seq<Row>>, position: Option<Key>, limit: nat, i: nat, j: nat)
    requires limit >= 1 && (forall s <- snapshots :: DistinctKeys(s))
    requires var w := Walk(ascending, snapshots, position, limit); i < |w| && j < |w| && w[i].key == w[j].key
    ensures i == j
  {
    var w := Walk(ascending, snapshots, position, limit);
    WalkMovesForward(ascending, snapshots, position, limit);
    PrecedesOrder(ascending, w[i].key, w[i].key, w[i].key);
  }
}
