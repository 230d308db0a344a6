/**
 Public browsing (services/product_browse_service.py, repositories/product_browse_repository.py):
 the filtered listings, in the order of the query, paged through signed cursors.
 */
module Browse {
  import opened Common
  import opened Keyset
  import opened CursorText
  import opened BrowseCursor

  // A listing joined with what decides its visibility; `eligible` is the visibility predicate.
  datatype Listing = Listing(
    id: int, slug: string, title: string, description: string, price: nat, condition: string,
    city: string, category: string, publishedAt: Option<Micros>, eligible: bool)

  // MATCH ... AGAINST in boolean mode is the database's; the proofs hold for any such predicate.
  type TextMatch = (string, string, string) -> bool

  // The WHERE clauses of `page_statement` apart from the position.
  predicate Selected(matches: TextMatch, query: Query, l: Listing) {
    && l.eligible && l.publishedAt.Some?
    && (query.q.None? || matches(query.q.value, l.title, l.description))
    && (query.city.None? || l.city == query.city.value)
    && (query.category.None? || l.category == query.category.value)
    && (query.minPrice.None? || l.price >= query.minPrice.value)
    && (query.maxPrice.None? || l.price <= query.maxPrice.value)
    && (query.condition.None? || l.condition == query.condition.value)
  }

  function SortValue(sort: Sort, l: Listing): Value
    requires l.publishedAt.Some?
  {
    if sort.Newest? then Moment(l.publishedAt.value) else Amount(l.price)
  }

  function Number(v: Value): int {
    match v
    case Moment(at) => at
    case Amount(cents) => cents
  }

  predicate Ascending(sort: Sort) {
    sort.PriceAsc?
  }

  // The selected rows of a snapshot, each with its key under the query's order.
  function Snapshot(matches: TextMatch, query: Query, table: seq<Listing>): seq<Row> {
    if table == [] then []
    else
      var l := table[0];
      (if Selected(matches, query, l) then [Row(Key(Number(SortValue(query.sort, l)), l.slug), l.id)] else [])
      + Snapshot(matches, query, table[1..])
  }

  // Unique constraint on the slug, and the column checks the cursor relies on.
  predicate ValidTable(table: seq<Listing>) {
    && (forall i, j :: 0 <= i < j < |table| ==> table[i].slug != table[j].slug)
    && (forall l <- table :: IsSlug(l.slug) && 0 < l.price <= MAX_CENTS)
  }

  lemma {:induction false} SnapshotFacts(matches: TextMatch, query: Query, table: seq<Listing>)
    requires ValidTable(table)
    ensures DistinctKeys(Snapshot(matches, query, table))
    ensures forall r <- Snapshot(matches, query, table) :: Representative(matches, query, table, r)
    ensures forall l <- table :: Selected(matches, query, l) ==>
      Row(Key(Number(SortValue(query.sort, l)), l.slug), l.id) in Snapshot(matches, query, table)
  {
    hide Selected, SortValue, IsSlug;
    if table != [] {
      var head, tail := table[0], table[1..];
      assert table == [head] + tail;
      SnapshotFacts(matches, query, tail);
      var rest := Snapshot(matches, query, tail);
      forall r | r in rest
        ensures r.key.slug != head.slug && Representative(matches, query, table, r)
      {
        OtherSlug(matches, query, table, r);
      }
      if Selected(matches, query, head) {
        assert Represents(matches, query, head, Snapshot(matches, query, table)[0]);
        forall j | 0 <= j < |rest|
          ensures rest[j].key.slug != head.slug
        {
          assert rest[j] in rest;
        }
      }
    }
  }

  // A row of a later listing has another slug than the first one.
  lemma OtherSlug(matches: TextMatch, query: Query, table: seq<Listing>, r: Row)
    requires ValidTable(table) && table != [] && Representative(matches, query, table[1..], r)
    ensures r.key.slug != table[0].slug && Representative(matches, query, table, r)
  {
    hide Selected, SortValue, IsSlug;
    var tail := table[1..];
    var l :| l in tail && Represents(matches, query, l, r);
    var i :| 0 <= i < |tail| && tail[i] == l;
    assert table[i + 1] == l;
  }

  predicate Represents(matches: TextMatch, query: Query, l: Listing, r: Row) {
    Selected(matches, query, l) && r == Row(Key(Number(SortValue(query.sort, l)), l.slug), l.id)
  }

  ghost predicate Representative(matches: TextMatch, query: Query, table: seq<Listing>, r: Row) {
    exists l <- table :: Represents(matches, query, l, r)
  }

  /******* The service *******/

  function PositionKey(p: Position): Key {
    Key(Number(p.value), p.slug)
  }

  // The position of an emitted row, as the cursor stores it.
  predicate IsPositionOf(query: Query, p: Position, k: Key) {
    Produced(query, p) && Representable(p) && PositionKey(p) == k
  }

  function PositionOf(query: Query, k: Key): Position
    requires query.sort.Newest? ==> 0 <= k.value < 315_537_897_600_000_000
    requires k.value >= 0
  {
    Position(if query.sort.Newest? then Moment(k.value) else Amount(k.value), k.slug)
  }

  datatype BrowsePage = BrowsePage(items: seq<Row>, nextCursor: Option<string>, hasMore: bool)

  // Keys of selected rows convert to positions the codec takes.
  ghost predicate Encodable(query: Query, k: Key) {
    && IsSlug(k.slug) && k.value >= 0
    && (query.sort.Newest? ==> k.value < 315_537_897_600_000_000)
    && (!query.sort.Newest? ==> 0 < k.value <= MAX_CENTS)
  }

  lemma SnapshotEncodable(matches: TextMatch, query: Query, table: seq<Listing>)
    requires ValidTable(table)
    ensures forall r <- Snapshot(matches, query, table) :: Encodable(query, r.key)
  {
    SnapshotFacts(matches, query, table);
    forall r | r in Snapshot(matches, query, table)
      ensures Encodable(query, r.key)
    {
      assert Representative(matches, query, table, r);
      var l :| l in table && Represents(matches, query, l, r);
    }
  }

  // `ProductBrowseService.browse`; None is InvalidBrowseCursor.
  ghost function BrowseOnce(lib: Library, matches: TextMatch, query: Query, cursor: Option<string>,
                            table: seq<Listing>): Option<BrowsePage>
    requires lib.Trusted() && ValidTable(table) && query.limit >= 1
  {
    var position := if cursor.None? then None else DecodeCursor(lib, cursor.value, query);
    if cursor.Some? && position.None? then None
    else
      var page := FetchPage(Ascending(query.sort), Snapshot(matches, query, table),
                            if position.None? then None else Some(PositionKey(position.value)), query.limit);
      PageEncodable(matches, query, table, if position.None? then None else Some(PositionKey(position.value)));
      if page.next.None? then Some(BrowsePage(page.items, None, false))
      else
        ProducedIsPlain(lib, query, PositionOf(query, page.next.value));
        Some(BrowsePage(page.items, Some(EncodeCursor(lib, query, PositionOf(query, page.next.value))), true))
  }

  lemma PageEncodable(matches: TextMatch, query: Query, table: seq<Listing>, position: Option<Key>)
    requires ValidTable(table) && query.limit >= 1
    ensures var next := FetchPage(Ascending(query.sort), Snapshot(matches, query, table), position, query.limit).next;
      next.Some? ==> Encodable(query, next.value) && IsPositionOf(query, PositionOf(query, next.value), next.value)
  {
    hide Remaining, FetchPage, Snapshot;
    var rows := Snapshot(matches, query, table);
    SnapshotFacts(matches, query, table);
    SnapshotEncodable(matches, query, table);
    PageFacts(Ascending(query.sort), rows, position, query.limit);
    RemainingFacts(Ascending(query.sort), position, rows);
    var s := Remaining(Ascending(query.sort), position, rows);
    if |s| > query.limit {
      assert s[query.limit - 1] in s;
    }
  }

  // The items of a client that follows `next_cursor`, one table per request.
  ghost function Follow(lib: Library, matches: TextMatch, query: Query, cursor: Option<string>,
                        tables: seq<seq<Listing>>): seq<Row>
    requires lib.Trusted() && query.limit >= 1 && forall t <- tables :: ValidTable(t)
    decreases |tables|
  {
    if tables == [] then []
    else
      assert tables[0] in tables;
      match BrowseOnce(lib, matches, query, cursor, tables[0])
      case None => []
      case Some(page) =>
        page.items + if page.nextCursor.None? then [] else Follow(lib, matches, query, page.nextCursor, tables[1..])
  }

  // How many requests that client makes.
  ghost function PagesFetched(lib: Library, matches: TextMatch, query: Query, cursor: Option<string>,
                              tables: seq<seq<Listing>>): nat
    requires lib.Trusted() && query.limit >= 1 && forall t <- tables :: ValidTable(t)
    decreases |tables|
  {
    if tables == [] then 0
    else
      assert tables[0] in tables;
      match BrowseOnce(lib, matches, query, cursor, tables[0])
      case None => 1
      case Some(page) => 1 + if page.nextCursor.None? then 0
          else PagesFetched(lib, matches, query, page.nextCursor, tables[1..])
  }

  function Snapshots(matches: TextMatch, query: Query, tables: seq<seq<Listing>>): (r: seq<seq<Row>>)
    ensures |r| == |tables| && forall i :: 0 <= i < |tables| ==> r[i] == Snapshot(matches, query, tables[i])
  {
    seq(|tables|, i requires 0 <= i < |tables| => Snapshot(matches, query, tables[i]))
  }

  // A cursor, or none, that stands for a position.
  ghost predicate StandsFor(lib: Library, query: Query, cursor: Option<string>, position: Option<Key>) {
    if cursor.None? then position.None? else
    var decoded := DecodeCursor(lib, cursor.value, query);
    decoded.Some? && position == Some(PositionKey(decoded.value))
  }

  lemma BrowseIsPage(lib: Library, matches: TextMatch, query: Query, cursor: Option<string>, position: Option<Key>,
                     table: seq<Listing>)
    requires lib.Trusted() && ValidTable(table) && query.limit >= 1 && StandsFor(lib, query, cursor, position)
    ensures var once := BrowseOnce(lib, matches, query, cursor, table);
      var page := FetchPage(Ascending(query.sort), Snapshot(matches, query, table), position, query.limit);
      && once.Some? && once.value.items == page.items && (once.value.hasMore <==> page.next.Some?)
      && (once.value.nextCursor.None? <==> page.next.None?) && StandsFor(lib, query, once.value.nextCursor, page.next)
  {
    hide FetchPage, Snapshot, DecodeCursor, EncodeCursor, Fingerprint, PayloadOf;
    PageEncodable(matches, query, table, position);
    var page := FetchPage(Ascending(query.sort), Snapshot(matches, query, table), position, query.limit);
    if page.next.Some? {
      var p := PositionOf(query, page.next.value);
      ProducedIsPlain(lib, query, p);
      CursorRoundTrip(lib, query, p, query);
    }
  }

  /** Following signed cursors is the keyset walk itself, so every promise about the walk is one
      about clients: no cursor is ever refused, and no row is lost or repeated by the encoding. */
  lemma {:induction false} FollowIsWalk(lib: Library, matches: TextMatch, query: Query, cursor: Option<string>,
                                        position: Option<Key>, tables: seq<seq<Listing>>)
    requires lib.Trusted() && query.limit >= 1 && (forall t <- tables :: ValidTable(t))
        && StandsFor(lib, query, cursor, position)
    ensures Follow(lib, matches, query, cursor, tables)
         == Walk(Ascending(query.sort), Snapshots(matches, query, tables), position, query.limit)
    ensures PagesFetched(lib, matches, query, cursor, tables)
         == Requests(Ascending(query.sort), Snapshots(matches, query, tables), position, query.limit)
    decreases |tables|
  {
    hide FetchPage, Snapshot, BrowseOnce, StandsFor;
    if tables != [] {
      assert tables[0] in tables && forall t <- tables[1..] :: t in tables;
      BrowseIsPage(lib, matches, query, cursor, position, tables[0]);
      var once := BrowseOnce(lib, matches, query, cursor, tables[0]).value;
      var page := FetchPage(Ascending(query.sort), Snapshot(matches, query, tables[0]), position, query.limit);
      assert Snapshots(matches, query, tables)[1..] == Snapshots(matches, query, tables[1..]);
      if page.next.Some? {
        FollowIsWalk(lib, matches, query, once.nextCursor, page.next, tables[1..]);
      }
    }
  }

  /** On an unchanged table, following the cursors from the first page gives exactly the selected
      listings, each once, in the order of the query, in as few requests as the limit allows. */
  lemma BrowseAll(lib: Library, matches: TextMatch, query: Query, table: seq<Listing>, requests: nat)
    requires lib.Trusted() && ValidTable(table) && query.limit >= 1
    requires requests >= 1 && requests * query.limit >= |Snapshot(matches, query, table)|
    ensures var rows := Follow(lib, matches, query, None, seq(requests, _ => table));
      && Sorted(Ascending(query.sort), rows)
      && |rows| == |Snapshot(matches, query, table)|
      && forall r :: r in rows <==> Representative(matches, query, table, r)
    ensures PagesFit(PagesFetched(lib, matches, query, None, seq(requests, _ => table)), query.limit,
                     |Snapshot(matches, query, table)|)
  {
    hide Walk, Follow, Sorted, Selected, PagesFetched, Requests, PagesFit, Snapshot, ValidTable, DistinctKeys;
    var tables := seq(requests, _ => table);
    SnapshotMeans(matches, query, table);
    FollowIsWalk(lib, matches, query, None, None, tables);
    assert forall s <- Snapshots(matches, query, tables) :: s == Snapshot(matches, query, table);
    WholeWalk(Ascending(query.sort), Snapshot(matches, query, table), Snapshots(matches, query, tables), query.limit);
  }

  lemma SnapshotMeans(matches: TextMatch, query: Query, table: seq<Listing>)
    requires ValidTable(table)
    ensures DistinctKeys(Snapshot(matches, query, table))
    ensures forall r :: r in Snapshot(matches, query, table) <==> Representative(matches, query, table, r)
  {
    SnapshotFacts(matches, query, table);
  }

  /** With any writes between requests: emitted keys strictly advance, so nothing repeats, and a
      listing that stays selected with the same key is emitted by a completed walk. */
  lemma BrowseUnderWrites(lib: Library, matches: TextMatch, query: Query, tables: seq<seq<Listing>>, k: Key)
    requires lib.Trusted() && query.limit >= 1 && forall t <- tables :: ValidTable(t)
    ensures Sorted(Ascending(query.sort), Follow(lib, matches, query, None, tables))
    ensures Completes(Ascending(query.sort), Snapshots(matches, query, tables), None, query.limit)
        && StaysVisible(Snapshots(matches, query, tables), k)
        ==> Emits(Follow(lib, matches, query, None, tables), k)
  {
    hide FetchPage, Walk, Follow, Snapshot, Sorted, Completes;
    var ascending, snapshots := Ascending(query.sort), Snapshots(matches, query, tables);
    FollowIsWalk(lib, matches, query, None, None, tables);
    forall s | s in snapshots
      ensures DistinctKeys(s)
    {
      var i :| 0 <= i < |snapshots| && snapshots[i] == s;
      assert tables[i] in tables;
      SnapshotFacts(matches, query, tables[i]);
    }
    WalkMovesForward(ascending, snapshots, None, query.limit);
    if Completes(ascending, snapshots, None, query.limit) && StaysVisible(snapshots, k) {
      StableRowEmitted(ascending, snapshots, None, query.limit, k);
    }
  }

  /******* In the columns of the listings *******/

  // What the three orders mean for the listings themselves.
  ghost predicate ComesFirst(sort: Sort, l: Listing, m: Listing) {
    match sort
    case PriceAsc => l.price < m.price || (l.price == m.price && Lexicographic(l.slug, m.slug))
    case PriceDesc => l.price > m.price || (l.price == m.price && Lexicographic(m.slug, l.slug))
    case Newest =>
      && l.publishedAt.Some? && m.publishedAt.Some?
      && (l.publishedAt.value > m.publishedAt.value
          || (l.publishedAt == m.publishedAt && Lexicographic(m.slug, l.slug)))
  }

  // The listing that a row shows.
  lemma ShownListing(matches: TextMatch, query: Query, table: seq<Listing>, r: Row, l: Listing)
    requires ValidTable(table) && Representative(matches, query, table, r) && l in table && l.slug == r.key.slug
    ensures Represents(matches, query, l, r)
  {
    hide Selected, SortValue, IsSlug;
    var m :| m in table && Represents(matches, query, m, r);
    var i :| 0 <= i < |table| && table[i] == l;
    var j :| 0 <= j < |table| && table[j] == m;
    assert i < j || j < i || i == j;
  }

  lemma PrecedesMeans(matches: TextMatch, query: Query, l: Listing, m: Listing, a: Row, b: Row)
    requires Represents(matches, query, l, a) && Represents(matches, query, m, b)
    ensures Precedes(Ascending(query.sort), a.key, b.key) <==> ComesFirst(query.sort, l, m)
  {
    hide SlugLess, Lexicographic;
    SlugLessMeans(l.slug, m.slug);
    SlugLessMeans(m.slug, l.slug);
  }

  /** On an unchanged table, of two listings shown the cheaper, dearer or later published one comes
      first, and of equal ones the one with the lesser slug, or the greater one in the descending
      orders. */
  lemma ListedInOrder(lib: Library, matches: TextMatch, query: Query, table: seq<Listing>, requests: nat,
                      i: nat, j: nat, l: Listing, m: Listing)
    requires lib.Trusted() && ValidTable(table) && query.limit >= 1
    requires requests >= 1 && requests * query.limit >= |Snapshot(matches, query, table)|
    requires var rows := Follow(lib, matches, query, None, seq(requests, _ => table));
      i < j < |rows| && rows[i].key.slug == l.slug && rows[j].key.slug == m.slug
    requires l in table && m in table
    ensures ComesFirst(query.sort, l, m)
  {
    hide Follow, Snapshot, Represents, ComesFirst, Precedes, PagesFetched, ValidTable, PagesFit, Representative;
    BrowseAll(lib, matches, query, table, requests);
    var rows := Follow(lib, matches, query, None, seq(requests, _ => table));
    var a, b := rows[i], rows[j];
    assert a in rows && b in rows;
    ShownListing(matches, query, table, a, l);
    ShownListing(matches, query, table, b, m);
    PrecedesMeans(matches, query, l, m, a, b);
  }

  ghost predicate Shows(rows: seq<Row>, slug: string) {
    exists r <- rows :: r.key.slug == slug
  }

  /** A listing is shown exactly if it is visible to the public and meets every filter that is set,
      with the bounds of the price included. */
  lemma ListedExactly(lib: Library, matches: TextMatch, query: Query, table: seq<Listing>, requests: nat, l: Listing)
    requires lib.Trusted() && ValidTable(table) && query.limit >= 1 && l in table
    requires requests >= 1 && requests * query.limit >= |Snapshot(matches, query, table)|
    ensures Shows(Follow(lib, matches, query, None, seq(requests, _ => table)), l.slug) <==>
      && l.eligible && l.publishedAt.Some?
      && (query.q == None || matches(query.q.value, l.title, l.description))
      && (query.city == None || query.city.value == l.city)
      && (query.category == None || query.category.value == l.category)
      && (query.condition == None || query.condition.value == l.condition)
      && (query.minPrice == None || query.minPrice.value <= l.price)
      && (query.maxPrice == None || l.price <= query.maxPrice.value)
  {
    hide Follow, Snapshot, PagesFetched, ValidTable, PagesFit;
    BrowseAll(lib, matches, query, table, requests);
    var rows := Follow(lib, matches, query, None, seq(requests, _ => table));
    if r :| r in rows && r.key.slug == l.slug {
      ShownListing(matches, query, table, r, l);
    }
    if Selected(matches, query, l) {
      var r := Row(Key(Number(SortValue(query.sort, l)), l.slug), l.id);
      assert Represents(matches, query, l, r);
      assert r in rows;
    }
  }
}
