/**
 Reading the view history (services/recently_viewed_service.py, `list`, over
 repositories/recently_viewed_repository.py, `page_statement`): the visible rows of one user,
 newest first, paged through private cursors.
 */
module HistoryPages {
  import opened Common
  import opened Keyset
  import opened CursorText
  import opened BrowseCursor
  import opened PersonalCursor

  // A view joined with its listing; `eligible` is the visibility predicate.
  datatype Entry = Entry(user: string, listing: int, slug: string, at: Micros, eligible: bool)

  predicate Listed(user: string, e: Entry) {
    e.user == user && e.eligible
  }

  function EntryRow(e: Entry): Row {
    Row(Key(e.at, e.slug), e.listing)
  }

  function Visible(user: string, table: seq<Entry>): seq<Row> {
    if table == [] then []
    else (if Listed(user, table[0]) then [EntryRow(table[0])] else []) + Visible(user, table[1..])
  }

  // One row per user and listing, with the slug of the listing; the column holds years from 1000 on.
  ghost predicate ValidHistory(table: seq<Entry>) {
    && (forall i, j :: 0 <= i < j < |table| ==> !(table[i].user == table[j].user && table[i].slug == table[j].slug))
    && (forall i :: 0 <= i < |table| ==> IsSlug(table[i].slug) && table[i].at >= YEAR_1000)
  }

  ghost predicate Stands(user: string, table: seq<Entry>, r: Row) {
    exists e <- table :: Listed(user, e) && r == EntryRow(e)
  }

  lemma {:induction false} VisibleRows(user: string, table: seq<Entry>)
    ensures forall r :: r in Visible(user, table) <==> Stands(user, table, r)
  {
    if table != [] {
      var head, tail := table[0], table[1..];
      assert table == [head] + tail;
      VisibleRows(user, tail);
      forall r
        ensures r in Visible(user, table) <==> Stands(user, table, r)
      {
        assert Stands(user, table, r) <==> (Listed(user, head) && r == EntryRow(head)) || Stands(user, tail, r);
      }
    }
  }

  lemma {:induction false} VisibleDistinct(user: string, table: seq<Entry>)
    requires ValidHistory(table)
    ensures DistinctKeys(Visible(user, table))
  {
    if table != [] {
      var head, tail := table[0], table[1..];
      VisibleDistinct(user, tail);
      var rest := Visible(user, tail);
      VisibleRows(user, tail);
      forall j | 0 <= j < |rest| && Listed(user, head)
        ensures rest[j].key.slug != head.slug
      {
        var r := rest[j];
        assert r in rest && Stands(user, tail, r);
        var e :| e in tail && Listed(user, e) && r == EntryRow(e);
        var k :| 0 <= k < |tail| && tail[k] == e;
        assert table[k + 1] == e;
      }
    }
  }

  // A key that a cursor carries and gives back.
  ghost predicate Carried(k: Key) {
    IsSlug(k.slug) && 0 <= k.value < 315_537_897_600_000_000 && k.value >= YEAR_1000
  }

  lemma NextIsCarried(user: string, table: seq<Entry>, position: Option<Key>, limit: nat)
    requires ValidHistory(table) && limit >= 1
    ensures var next := FetchPage(false, Visible(user, table), position, limit).next; next.Some? ==> Carried(next.value)
  {
    hide Remaining, FetchPage, Visible;
    var rows := Visible(user, table);
    VisibleDistinct(user, table);
    PageFacts(false, rows, position, limit);
    RemainingFacts(false, position, rows);
    VisibleRows(user, table);
    var s := Remaining(false, position, rows);
    if |s| > limit {
      var r := s[limit - 1];
      assert r in s && Stands(user, table, r);
      var e :| e in table && Listed(user, e) && r == EntryRow(e);
      var k :| 0 <= k < |table| && table[k] == e;
    }
  }

  /******* The service *******/

  datatype HistoryPage = HistoryPage(items: seq<Row>, nextCursor: Option<string>, hasMore: bool)

  function PositionOf(k: Key): PrivatePosition
    requires 0 <= k.value < 315_537_897_600_000_000
  {
    PrivatePosition(k.value, k.slug)
  }

  function KeyOf(p: PrivatePosition): Key {
    Key(p.at, p.slug)
  }

  // `RecentlyViewedService.list`; None is InvalidPersonalizationCursor.
  ghost function ListOnce(lib: PrivateLibrary, user: string, limit: nat, cursor: Option<string>,
                          table: seq<Entry>): Option<HistoryPage>
    requires lib.Trusted() && ValidHistory(table) && limit >= 1
  {
    var context := Context(user, RecentlyViewed, limit);
    var position := if cursor.None? then None else DecodePrivate(lib, cursor.value, context);
    if cursor.Some? && position.None? then None
    else
      var start := if position.None? then None else Some(KeyOf(position.value));
      var page := FetchPage(false, Visible(user, table), start, limit);
      NextIsCarried(user, table, start, limit);
      if page.next.None? then Some(HistoryPage(page.items, None, false))
      else
        PrivateIsPlain(lib, context, PositionOf(page.next.value));
        Some(HistoryPage(page.items, EncodePrivate(lib, context, PositionOf(page.next.value)), true))
  }

  // The items of a client that follows the cursors, one table per request.
  ghost function Follow(lib: PrivateLibrary, user: string, limit: nat, cursor: Option<string>,
                        tables: seq<seq<Entry>>): seq<Row>
    requires lib.Trusted() && limit >= 1 && forall t <- tables :: ValidHistory(t)
    decreases |tables|
  {
    if tables == [] then []
    else
      assert tables[0] in tables;
      match ListOnce(lib, user, limit, cursor, tables[0])
      case None => []
      case Some(page) =>
        page.items + if page.nextCursor.None? then [] else Follow(lib, user, limit, page.nextCursor, tables[1..])
  }

  function Snapshots(user: string, tables: seq<seq<Entry>>): (r: seq<seq<Row>>)
    ensures |r| == |tables| && forall i :: 0 <= i < |tables| ==> r[i] == Visible(user, tables[i])
  {
    seq(|tables|, i requires 0 <= i < |tables| => Visible(user, tables[i]))
  }

  ghost predicate StandsFor(lib: PrivateLibrary, context: Context, cursor: Option<string>, position: Option<Key>) {
    if cursor.None? then position.None? else
    var decoded := DecodePrivate(lib, cursor.value, context);
    decoded.Some? && position == Some(KeyOf(decoded.value))
  }

  lemma ListIsPage(lib: PrivateLibrary, user: string, limit: nat, cursor: Option<string>, position: Option<Key>,
                   table: seq<Entry>)
    requires lib.Trusted() && ValidHistory(table) && limit >= 1
    requires StandsFor(lib, Context(user, RecentlyViewed, limit), cursor, position)
    ensures var once := ListOnce(lib, user, limit, cursor, table);
      var page := FetchPage(false, Visible(user, table), position, limit);
      && once.Some? && once.value.items == page.items && (once.value.hasMore <==> page.next.Some?)
      && (once.value.nextCursor.None? <==> page.next.None?)
      && StandsFor(lib, Context(user, RecentlyViewed, limit), once.value.nextCursor, page.next)
  {
    hide FetchPage, Visible, DecodePrivate, EncodePrivate, ContextHash;
    var context := Context(user, RecentlyViewed, limit);
    var page := FetchPage(false, Visible(user, table), position, limit);
    NextIsCarried(user, table, position, limit);
    if page.next.Some? {
      PrivateRoundTrip(lib, context, PositionOf(page.next.value), context);
    }
  }

  /** Following private cursors is the keyset walk over the user's visible history. */
  lemma {:induction false} FollowIsWalk(lib: PrivateLibrary, user: string, limit: nat, cursor: Option<string>,
                                        position: Option<Key>, tables: seq<seq<Entry>>)
    requires lib.Trusted() && limit >= 1 && forall t <- tables :: ValidHistory(t)
    requires StandsFor(lib, Context(user, RecentlyViewed, limit), cursor, position)
    ensures Follow(lib, user, limit, cursor, tables) == Walk(false, Snapshots(user, tables), position, limit)
    decreases |tables|
  {
    hide FetchPage, Visible, ListOnce, StandsFor, ValidHistory;
    if tables != [] {
      assert tables[0] in tables && forall t <- tables[1..] :: t in tables;
      ListIsPage(lib, user, limit, cursor, position, tables[0]);
      var once := ListOnce(lib, user, limit, cursor, tables[0]).value;
      var page := FetchPage(false, Visible(user, tables[0]), position, limit);
      assert Snapshots(user, tables)[1..] == Snapshots(user, tables[1..]);
      if page.next.Some? {
        FollowIsWalk(lib, user, limit, once.nextCursor, page.next, tables[1..]);
      }
    }
  }

  /** On an unchanged table the cursors lead through exactly the user's visible history, newest first. */
  lemma HistoryAll(lib: PrivateLibrary, user: string, limit: nat, table: seq<Entry>, requests: nat)
    requires lib.Trusted() && ValidHistory(table) && limit >= 1
    requires requests >= 1 && requests * limit >= |Visible(user, table)|
    ensures var rows := Follow(lib, user, limit, None, seq(requests, _ => table));
      && Sorted(false, rows) && |rows| == |Visible(user, table)|
      && forall r :: r in rows <==> Stands(user, table, r)
  {
    hide Walk, Follow, Sorted, Visible, ValidHistory, Requests, DistinctKeys;
    var tables := seq(requests, _ => table);
    VisibleRows(user, table);
    VisibleDistinct(user, table);
    FollowIsWalk(lib, user, limit, None, None, tables);
    assert forall s <- Snapshots(user, tables) :: s == Visible(user, table);
    WholeWalk(false, Visible(user, table), Snapshots(user, tables), limit);
  }

  /**
   Whatever is recorded, removed or hidden between requests, the listed (last viewed, slug) keys
   strictly decrease, and a row that stays with an unchanged key is in every completed listing.
   */
  lemma HistoryUnderWrites(lib: PrivateLibrary, user: string, limit: nat, tables: seq<seq<Entry>>, k: Key)
    requires lib.Trusted() && limit >= 1 && forall t <- tables :: ValidHistory(t)
    ensures Sorted(false, Follow(lib, user, limit, None, tables))
    ensures Completes(false, Snapshots(user, tables), None, limit) && StaysVisible(Snapshots(user, tables), k)
        ==> Emits(Follow(lib, user, limit, None, tables), k)
  {
    hide FetchPage, Walk, Follow, Visible, Sorted, Completes, ValidHistory;
    var snapshots := Snapshots(user, tables);
    FollowIsWalk(lib, user, limit, None, None, tables);
    forall s | s in snapshots
      ensures DistinctKeys(s)
    {
      var i :| 0 <= i < |snapshots| && snapshots[i] == s;
      assert tables[i] in tables;
      VisibleDistinct(user, tables[i]);
    }
    WalkMovesForward(false, snapshots, None, limit);
    if Completes(false, snapshots, None, limit) && StaysVisible(snapshots, k) {
      StableRowEmitted(false, snapshots, None, limit, k);
    }
  }

  /******* In the columns of the entries *******/

  lemma ShownEntry(user: string, table: seq<Entry>, r: Row, e: Entry)
    requires ValidHistory(table) && Stands(user, table, r) && e in table && e.user == user && e.slug == r.key.slug
    ensures e.eligible && r == Row(Key(e.at, e.slug), e.listing)
  {
    var f :| f in table && Listed(user, f) && r == EntryRow(f);
    var i :| 0 <= i < |table| && table[i] == e;
    var j :| 0 <= j < |table| && table[j] == f;
    assert i < j || j < i || i == j;
  }

  /** On an unchanged table the later viewed of two entries comes first, and of equal ones the one
      with the greater slug. */
  lemma HistoryInOrder(lib: PrivateLibrary, user: string, limit: nat, table: seq<Entry>, requests: nat,
                       i: nat, j: nat, e: Entry, f: Entry)
    requires lib.Trusted() && ValidHistory(table) && limit >= 1
    requires requests >= 1 && requests * limit >= |Visible(user, table)|
    requires var rows := Follow(lib, user, limit, None, seq(requests, _ => table));
      i < j < |rows| && rows[i].key.slug == e.slug && rows[j].key.slug == f.slug
    requires e in table && f in table && e.user == user && f.user == user
    ensures e.at > f.at || (e.at == f.at && Lexicographic(f.slug, e.slug))
  {
    hide Follow, Visible, ValidHistory, SlugLess, Lexicographic, Stands;
    HistoryAll(lib, user, limit, table, requests);
    var rows := Follow(lib, user, limit, None, seq(requests, _ => table));
    var a, b := rows[i], rows[j];
    assert a in rows && b in rows;
    ShownEntry(user, table, a, e);
    ShownEntry(user, table, b, f);
    assert Precedes(false, a.key, b.key);
    SlugLessMeans(f.slug, e.slug);
  }

  /** Shown are exactly the entries of the user whose listing is visible to the public. */
  lemma HistoryExactly(lib: PrivateLibrary, user: string, limit: nat, table: seq<Entry>, requests: nat, r: Row)
    requires lib.Trusted() && ValidHistory(table) && limit >= 1
    requires requests >= 1 && requests * limit >= |Visible(user, table)|
    ensures r in Follow(lib, user, limit, None, seq(requests, _ => table)) <==>
      exists e <- table ::
        e.user == user && e.eligible && r.key.value == e.at && r.key.slug == e.slug && r.id == e.listing
  {
    hide Follow, Visible, ValidHistory;
    HistoryAll(lib, user, limit, table, requests);
    if e :| e in table && e.user == user && e.eligible && r.key.value == e.at && r.key.slug == e.slug
            && r.id == e.listing {
      assert Stands(user, table, r);
    }
  }
}
