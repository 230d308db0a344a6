/**
 Recently viewed listings (services/recently_viewed_service.py and its repository): each
 record upserts one row with the greater of two times, then trims the user's rows to the
 retention, reading at most 101 of them.
 */
module RecentViews {
  import opened Common
  import opened Keyset

  datatype View = View(user: int, product: string, at: int)

  // Primary key (user_id, product_listing_id).
  ghost predicate Distinct(views: seq<View>) {
    forall i, j :: 0 <= i < j < |views| ==> !(views[i].user == views[j].user && views[i].product == views[j].product)
  }

  // The columns entries are ordered by.
  function EntryKey(v: View): Key {
    Key(v.at, v.product)
  }

  function Keys(views: seq<View>, user: int): set<Key> {
    set v <- views | v.user == user :: EntryKey(v)
  }

  /******* Statements *******/

  // INSERT ... ON DUPLICATE KEY UPDATE last_viewed_at = GREATEST(...)
  function Upsert(views: seq<View>, user: int, product: string, at: int): seq<View> {
    if views == [] then [View(user, product, at)]
    else
      var v := views[0];
      if v.user == user && v.product == product then [v.(at := if v.at < at then at else v.at)] + views[1..]
      else [v] + Upsert(views[1..], user, product, at)
  }

  function Entries(views: seq<View>, user: int): seq<Row> {
    if views == [] then []
    else (if views[0].user == user then [Row(EntryKey(views[0]), user)] else []) + Entries(views[1..], user)
  }

  const READ_LIMIT: nat := 101

  // `entries_for_update`: newest first, LIMIT 101.
  function EntriesForUpdate(views: seq<View>, user: int): seq<Row> {
    var ordered := Sort(false, Entries(views, user));
    if |ordered| > READ_LIMIT then ordered[..READ_LIMIT] else ordered
  }

  // `remove_entries`
  function RemoveEntries(views: seq<View>, user: int, products: set<string>): seq<View> {
    if views == [] then []
    else
      (if views[0].user == user && views[0].product in products then [] else [views[0]])
      + RemoveEntries(views[1..], user, products)
  }

  function Overflow(views: seq<View>, user: int, retention: nat): set<string> {
    var entries := EntriesForUpdate(views, user);
    if |entries| <= retention then {} else set r <- entries[retention..] :: r.key.slug
  }

  // `record`, for a listing the public may see.
  function Record(views: seq<View>, user: int, product: string, at: int, retention: nat): seq<View> {
    var written := Upsert(views, user, product, at);
    RemoveEntries(written, user, Overflow(written, user, retention))
  }

  /******* Statements on sets of keys *******/

  lemma HeadIsAlone(views: seq<View>)
    requires Distinct(views) && views != []
    ensures Distinct(views[1..])
    ensures forall v :: v in views[1..] ==> !(v.user == views[0].user && v.product == views[0].product)
  {
    forall v | v in views[1..]
      ensures !(v.user == views[0].user && v.product == views[0].product)
    {
      var i :| 0 <= i < |views[1..]| && views[1..][i] == v;
      assert views[i + 1] == v;
    }
  }

  lemma DistinctCons(v: View, rest: seq<View>)
    requires Distinct(rest) && forall w :: w in rest ==> !(w.user == v.user && w.product == v.product)
    ensures Distinct([v] + rest)
  {
    forall i | 0 <= i < |rest|
      ensures !(rest[i].user == v.user && rest[i].product == v.product)
    {
      assert rest[i] in rest;
    }
  }

  lemma {:induction false} UpsertFacts(views: seq<View>, user: int, product: string, at: int)
    requires Distinct(views)
    ensures Distinct(Upsert(views, user, product, at))
    ensures forall v :: v in Upsert(views, user, product, at) <==>
      (v in views && !(v.user == user && v.product == product)) || v == Written(views, user, product, at)
  {
    if views != [] {
      var head, tail := views[0], views[1..];
      assert views == [head] + tail;
      HeadIsAlone(views);
      if head.user == user && head.product == product {
        DistinctCons(Written(views, user, product, at), tail);
      } else {
        UpsertFacts(tail, user, product, at);
        WrittenFacts(tail, user, product, at);
        DistinctCons(head, Upsert(tail, user, product, at));
      }
    }
  }

  // The row that an upsert leaves for its product.
  function Written(views: seq<View>, user: int, product: string, at: int): View {
    if views == [] then View(user, product, at)
    else if views[0].user == user && views[0].product == product
    then views[0].(at := if views[0].at < at then at else views[0].at)
    else Written(views[1..], user, product, at)
  }

  lemma {:induction false} WrittenFacts(views: seq<View>, user: int, product: string, at: int)
    requires Distinct(views)
    ensures var w := Written(views, user, product, at);
      && w.user == user && w.product == product
      && (forall v :: v in views && v.user == user && v.product == product ==> w.at == if v.at < at then at else v.at)
      && ((forall v :: v in views ==> !(v.user == user && v.product == product)) ==> w.at == at)
  {
    if views != [] {
      var head, tail := views[0], views[1..];
      assert views == [head] + tail;
      HeadIsAlone(views);
      WrittenFacts(tail, user, product, at);
    }
  }

  lemma {:induction false} RemoveFacts(views: seq<View>, user: int, products: set<string>)
    ensures forall v :: v in RemoveEntries(views, user, products) <==>
        v in views && !(v.user == user && v.product in products)
    ensures Distinct(views) ==> Distinct(RemoveEntries(views, user, products))
  {
    if views != [] {
      var head, tail := views[0], views[1..];
      assert views == [head] + tail;
      RemoveFacts(tail, user, products);
      var rest := RemoveEntries(tail, user, products);
      if Distinct(views) {
        HeadIsAlone(views);
        DistinctCons(head, rest);
      }
    }
  }

  lemma {:induction false} EntriesFacts(views: seq<View>, user: int)
    requires Distinct(views)
    ensures DistinctKeys(Entries(views, user)) && |Entries(views, user)| == |Keys(views, user)|
    ensures forall r :: r in Entries(views, user) <==> r.id == user && r.key in Keys(views, user)
  {
    hide Distinct, Keys, DistinctKeys;
    if views == [] {
      assert DistinctKeys([]) && Keys([], user) == {} by { NoEntries(user); }
    } else {
      var head, tail := views[0], views[1..];
      assert views == [head] + tail;
      HeadIsAlone(views);
      EntriesFacts(tail, user);
      KeysCons(head, tail, user);
      if head.user == user {
        NewEntry(head, tail, user);
        ConsRow(Row(EntryKey(head), user), Entries(tail, user));
      } else {
        assert Entries(views, user) == Entries(tail, user);
      }
    }
  }

  lemma NoEntries(user: int)
    ensures DistinctKeys([]) && Keys([], user) == {}
  {
  }

  lemma NewEntry(head: View, tail: seq<View>, user: int)
    requires forall v :: v in tail ==> !(v.user == head.user && v.product == head.product)
    ensures head.user == user ==> EntryKey(head) !in Keys(tail, user)
  {
  }

  lemma ConsRow(r: Row, rows: seq<Row>)
    requires DistinctKeys(rows) && forall x :: x in rows ==> x.key != r.key
    ensures DistinctKeys([r] + rows)
  {
    forall i | 0 <= i < |rows|
      ensures rows[i].key != r.key
    {
      assert rows[i] in rows;
    }
  }

  lemma KeysCons(head: View, tail: seq<View>, user: int)
    ensures Keys([head] + tail, user) == Keys(tail, user) + if head.user == user then {EntryKey(head)} else {}
  {
  }

  // What a trim of at most one overflowing row removes.
  ghost predicate Trimmed(before: set<Key>, after: set<Key>, retention: nat) {
    if |before| <= retention then after == before
    else exists least <- before :: after == before - {least} && forall k <- before :: k != least ==> KeyLess(least, k)
  }

  ghost predicate OneEach(keys: set<Key>) {
    forall a, b :: a in keys && b in keys && a.slug == b.slug ==> a == b
  }

  lemma KeysAreOneEach(views: seq<View>, user: int)
    requires Distinct(views)
    ensures OneEach(Keys(views, user))
  {
    forall a, b | a in Keys(views, user) && b in Keys(views, user) && a.slug == b.slug
      ensures a == b
    {
      var v :| v in views && v.user == user && EntryKey(v) == a;
      var w :| w in views && w.user == user && EntryKey(w) == b;
      var i :| 0 <= i < |views| && views[i] == v;
      var j :| 0 <= j < |views| && views[j] == w;
    }
  }

  /** With retention at most 100, the limited read sees the one row too many, and it alone goes. */
  lemma TrimFacts(views: seq<View>, user: int, retention: nat)
    requires Distinct(views) && retention < READ_LIMIT && |Keys(views, user)| <= retention + 1
    ensures Trimmed(Keys(views, user), Keys(RemoveEntries(views, user, Overflow(views, user, retention)), user),
        retention)
  {
    hide Sort, Entries, RemoveEntries, Distinct;
    var keys := Keys(views, user);
    EntriesFacts(views, user);
    KeysAreOneEach(views, user);
    SortSorts(false, Entries(views, user));
    var s := Sort(false, Entries(views, user));
    RemoveFacts(views, user, Overflow(views, user, retention));
    if |keys| <= retention {
      assert Keys(RemoveEntries(views, user, {}), user) == keys;
    } else {
      assert EntriesForUpdate(views, user) == s;
      var least := s[retention];
      assert s[retention..] == [least] && least in s;
      assert Overflow(views, user, retention) == {least.key.slug};
      forall k | k in keys && k != least.key
        ensures KeyLess(least.key, k)
      {
        assert Row(k, user) in s;
        var i :| 0 <= i < |s| && s[i] == Row(k, user);
        assert i < retention;
      }
      RemovedOne(views, user, least.key);
    }
  }

  lemma RemovedOne(views: seq<View>, user: int, k: Key)
    requires Distinct(views) && k in Keys(views, user)
    ensures Keys(RemoveEntries(views, user, {k.slug}), user) == Keys(views, user) - {k}
  {
    var after := RemoveEntries(views, user, {k.slug});
    RemoveFacts(views, user, {k.slug});
    KeysAreOneEach(views, user);
    forall x
      ensures x in Keys(after, user) <==> x in Keys(views, user) - {k}
    {
      if x in Keys(views, user) && x != k {
        var v :| v in views && v.user == user && EntryKey(v) == x;
        assert v in after;
      }
    }
  }

  /******* The full log *******/

  // Every product's greatest view time.
  type Best = map<string, int>

  function Observe(best: Best, product: string, at: int): Best {
    best[product := if product in best && best[product] > at then best[product] else at]
  }

  function BestKey(best: Best, product: string): Key
    requires product in best
  {
    Key(best[product], product)
  }

  ghost function Greater(best: Best, product: string): set<string>
    requires product in best
  {
    set q <- best | KeyLess(BestKey(best, product), BestKey(best, q))
  }

  // Exactly the rows of the `retention` greatest products of the log.
  ghost predicate KeepsGreatest(best: Best, keys: set<Key>, retention: nat) {
    forall k: Key :: k in keys <==> k.slug in best && k == BestKey(best, k.slug) && |Greater(best, k.slug)| < retention
  }

  // The inductive form: no larger than asked, only as small as the log, and nothing left out above.
  ghost predicate Top(best: Best, keys: set<Key>, retention: nat) {
    && |keys| <= retention
    && (forall k <- keys :: k.slug in best && k == BestKey(best, k.slug))
    && (forall q <- best :: BestKey(best, q) !in keys ==>
          |keys| == retention && forall k <- keys :: KeyLess(BestKey(best, q), k))
  }

  lemma KeyOrder(a: Key, b: Key, c: Key)
    ensures !KeyLess(a, a)
    ensures KeyLess(a, b) && KeyLess(b, c) ==> KeyLess(a, c)
    ensures a != b ==> KeyLess(a, b) || KeyLess(b, a)
  {
    PrecedesOrder(true, a, b, c);
  }

  function Slugs(keys: set<Key>): set<string> {
    set k <- keys :: k.slug
  }

  lemma {:induction false} SlugsSize(keys: set<Key>)
    requires OneEach(keys)
    ensures |Slugs(keys)| == |keys|
    decreases |keys|
  {
    if keys != {} {
      var k :| k in keys;
      SlugsSize(keys - {k});
      assert Slugs(keys) == Slugs(keys - {k}) + {k.slug};
      assert k.slug !in Slugs(keys - {k});
    }
  }

  lemma TopKeepsGreatest(best: Best, keys: set<Key>, retention: nat)
    requires Top(best, keys, retention)
    ensures KeepsGreatest(best, keys, retention)
  {
    assert OneEach(keys);
    SlugsSize(keys);
    forall k: Key
      ensures k in keys <==> k.slug in best && k == BestKey(best, k.slug) && |Greater(best, k.slug)| < retention
    {
      if k in keys {
        forall q | q in Greater(best, k.slug)
          ensures q in Slugs(keys) - {k.slug}
        {
          KeyOrder(k, BestKey(best, q), k);
        }
        SubsetSize(Greater(best, k.slug), Slugs(keys) - {k.slug});
        assert k.slug in Slugs(keys);
      } else if k.slug in best && k == BestKey(best, k.slug) {
        forall q | q in Slugs(keys)
          ensures q in Greater(best, k.slug)
        {
        }
        SubsetSize(Slugs(keys), Greater(best, k.slug));
      }
    }
  }

  // The key set after an upsert.
  function Put(best: Best, keys: set<Key>, product: string, at: int): set<Key> {
    (set k <- keys | k.slug != product) + {Key(PutTime(best, keys, product, at), product)}
  }

  // A product still in the table meets its recorded time; one that was trimmed starts over.
  function PutTime(best: Best, keys: set<Key>, product: string, at: int): int {
    if product in best && BestKey(best, product) in keys && best[product] > at then best[product] else at
  }

  lemma PutSize(best: Best, keys: set<Key>, product: string, at: int)
    requires OneEach(keys)
    ensures |Put(best, keys, product, at)| == |keys| + if product in Slugs(keys) then 0 else 1
    ensures OneEach(Put(best, keys, product, at))
  {
    var others := set k <- keys | k.slug != product;
    OthersSize(keys, product);
    assert Key(PutTime(best, keys, product, at), product) !in others;
  }

  lemma OthersSize(keys: set<Key>, product: string)
    requires OneEach(keys)
    ensures |set k <- keys | k.slug != product| == |keys| - if product in Slugs(keys) then 1 else 0
  {
    var others := set k <- keys | k.slug != product;
    if product in Slugs(keys) {
      var k :| k in keys && k.slug == product;
      assert others == keys - {k};
    } else {
      assert others == keys;
    }
  }

  /** One record keeps the table the top of the log, for a time in any order. */
  lemma RecordKeepsTop(best: Best, keys: set<Key>, product: string, at: int, after: set<Key>, retention: nat)
    requires Top(best, keys, retention) && Trimmed(Put(best, keys, product, at), after, retention)
    ensures Top(Observe(best, product, at), after, retention)
  {
    hide Top, Put, Observe;
    TopIsOneEach(best, keys, retention);
    var put := Put(best, keys, product, at);
    PutSize(best, keys, product, at);
    if product in Slugs(keys) {
      KeptProduct(best, keys, product, at, retention);
    } else if |keys| < retention {
      RoomLeft(best, keys, product, at, retention);
    } else {
      var least :| least in put && after == put - {least} && forall k <- put :: k != least ==> KeyLess(least, k);
      ReplacedLeast(best, keys, product, at, least, retention);
    }
  }

  lemma TopIsOneEach(best: Best, keys: set<Key>, retention: nat)
    requires Top(best, keys, retention)
    ensures OneEach(keys) && |keys| <= retention
  {
  }

  // While the table is not full it holds the whole log.
  lemma RoomLeft(best: Best, keys: set<Key>, product: string, at: int, retention: nat)
    requires Top(best, keys, retention) && product !in Slugs(keys) && |keys| < retention
    ensures Top(Observe(best, product, at), Put(best, keys, product, at), retention)
  {
    TopIsOneEach(best, keys, retention);
    PutSize(best, keys, product, at);
    assert product !in best;
    var best', put := Observe(best, product, at), Put(best, keys, product, at);
    forall q | q in best'
      ensures BestKey(best', q) in put
    {
      if q != product { assert BestKey(best, q) in keys; }
    }
  }

  lemma KeptProduct(best: Best, keys: set<Key>, product: string, at: int, retention: nat)
    requires Top(best, keys, retention) && product in Slugs(keys)
    ensures Top(Observe(best, product, at), Put(best, keys, product, at), retention)
  {
    assert OneEach(keys);
    PutSize(best, keys, product, at);
    var best', put := Observe(best, product, at), Put(best, keys, product, at);
    var own := BestKey(best, product);
    assert own in keys;
    forall q | q in best' && BestKey(best', q) !in put
      ensures |put| == retention && forall k <- put :: KeyLess(BestKey(best', q), k)
    {
      assert q != product && BestKey(best, q) !in keys;
      forall k | k in put
        ensures KeyLess(BestKey(best', q), k)
      {
        if k.slug == product {
          assert KeyLess(BestKey(best, q), own);
        }
      }
    }
  }

  // The recorded view is itself the least: it does not stay.
  lemma LeastIsNew(best: Best, keys: set<Key>, product: string, at: int, retention: nat)
    requires Top(best, keys, retention) && |keys| == retention && product !in Slugs(keys)
    requires forall k <- keys :: KeyLess(Key(at, product), k)
    ensures Top(Observe(best, product, at), keys, retention)
  {
    var best' := Observe(best, product, at);
    forall k | k in keys
      ensures KeyLess(BestKey(best', product), k)
    {
      if product in best {
        assert BestKey(best, product) !in keys;
      }
    }
  }

  // Another entry is the least: the recorded view takes its place.
  lemma LeastIsOld(best: Best, keys: set<Key>, product: string, at: int, least: Key, retention: nat)
    requires Top(best, keys, retention) && |keys| == retention && product !in Slugs(keys)
    requires least in keys && KeyLess(least, Key(at, product))
    requires forall k <- keys :: k != least ==> KeyLess(least, k)
    ensures Top(Observe(best, product, at), keys + {Key(at, product)} - {least}, retention)
  {
    hide OneEach;
    var best', added := Observe(best, product, at), Key(at, product);
    var after := keys + {added} - {least};
    NowBest(best, keys, product, at, least, retention);
    forall q, k | q in best' && BestKey(best', q) !in after && k in after
      ensures KeyLess(BestKey(best', q), k)
    {
      assert q != product;
      if BestKey(best, q) != least {
        assert BestKey(best, q) !in keys && KeyLess(BestKey(best, q), least);
        KeyOrder(BestKey(best, q), least, k);
      }
    }
    StaysOneEach(keys, added, least);
  }

  // The recorded time is then the greatest of its product.
  lemma NowBest(best: Best, keys: set<Key>, product: string, at: int, least: Key, retention: nat)
    requires Top(best, keys, retention) && product !in Slugs(keys) && least in keys && KeyLess(least, Key(at, product))
    ensures product in Observe(best, product, at) && BestKey(Observe(best, product, at), product) == Key(at, product)
  {
    if product in best {
      assert BestKey(best, product) !in keys && KeyLess(BestKey(best, product), least);
      KeyOrder(BestKey(best, product), least, Key(at, product));
    }
  }

  lemma StaysOneEach(keys: set<Key>, added: Key, least: Key)
    requires OneEach(keys) && added.slug !in Slugs(keys) && least in keys
    ensures OneEach(keys + {added} - {least}) && |keys + {added} - {least}| == |keys|
  {
    assert added !in keys;
    assert |keys + {added}| == |keys| + 1;
  }

  lemma ReplacedLeast(best: Best, keys: set<Key>, product: string, at: int, least: Key, retention: nat)
    requires Top(best, keys, retention) && |keys| == retention && product !in Slugs(keys)
    requires var put := Put(best, keys, product, at);
      least in put && forall k <- put :: k != least ==> KeyLess(least, k)
    ensures Top(Observe(best, product, at), Put(best, keys, product, at) - {least}, retention)
  {
    hide Top, Observe;
    TopIsOneEach(best, keys, retention);
    PutSize(best, keys, product, at);
    var added := Key(at, product);
    assert Put(best, keys, product, at) == keys + {added};
    assert added !in keys by { NotListed(keys, added); }
    if least == added {
      assert keys + {added} - {added} == keys;
      LeastIsNew(best, keys, product, at, retention);
    } else {
      LeastIsOld(best, keys, product, at, least, retention);
    }
  }

  lemma NotListed(keys: set<Key>, k: Key)
    requires k.slug !in Slugs(keys)
    ensures k !in keys
  {
  }

  /******* Runs *******/

  // A recorded view of a listing the public could see.
  datatype Call = Call(user: int, product: string, at: int)

  function Run(calls: seq<Call>, retention: nat): seq<View> {
    if calls == [] then []
    else
      var c := calls[|calls| - 1];
      Record(Run(calls[..|calls| - 1], retention), c.user, c.product, c.at, retention)
  }

  function BestOf(calls: seq<Call>, user: int): Best {
    if calls == [] then map[]
    else
      var best, c := BestOf(calls[..|calls| - 1], user), calls[|calls| - 1];
      if c.user == user then Observe(best, c.product, c.at) else best
  }

  /** The log holds, for each listing the user viewed, the latest time of its views. */
  lemma {:induction false} BestIsLatest(calls: seq<Call>, user: int, product: string)
    ensures var best := BestOf(calls, user);
      && (product in best <==> exists c <- calls :: c.user == user && c.product == product)
      && (product in best ==>
            && (exists c <- calls :: c.user == user && c.product == product && c.at == best[product])
            && forall c <- calls :: c.user == user && c.product == product ==> c.at <= best[product])
  {
    if calls != [] {
      var init, last := calls[..|calls| - 1], calls[|calls| - 1];
      assert calls == init + [last];
      BestIsLatest(init, user, product);
    }
  }

  lemma RecordKeepsDistinct(views: seq<View>, user: int, product: string, at: int, retention: nat)
    requires Distinct(views)
    ensures Distinct(Record(views, user, product, at, retention))
  {
    UpsertFacts(views, user, product, at);
    var written := Upsert(views, user, product, at);
    RemoveFacts(written, user, Overflow(written, user, retention));
  }

  lemma OtherUsersUntouched(views: seq<View>, user: int, product: string, at: int, retention: nat, other: int)
    requires Distinct(views) && other != user
    ensures Keys(Record(views, user, product, at, retention), other) == Keys(views, other)
  {
    hide Distinct, Upsert, RemoveEntries, Overflow;
    UpsertFacts(views, user, product, at);
    WrittenFacts(views, user, product, at);
    var written := Upsert(views, user, product, at);
    RemoveFacts(written, user, Overflow(written, user, retention));
  }

  // On a table that is the top of a log, an upsert is a put.
  lemma UpsertIsPut(views: seq<View>, user: int, product: string, at: int, best: Best, retention: nat)
    requires Distinct(views) && Top(best, Keys(views, user), retention)
    ensures Keys(Upsert(views, user, product, at), user) == Put(best, Keys(views, user), product, at)
  {
    hide Distinct, Upsert, Written;
    UpsertFacts(views, user, product, at);
    WrittenFacts(views, user, product, at);
    var keys, written := Keys(views, user), Written(views, user, product, at);
    var after := Upsert(views, user, product, at);
    assert EntryKey(written) == Key(PutTime(best, keys, product, at), product) by {
      assert forall v <- views :: v.user == user ==> EntryKey(v) in keys;
      if product in best && BestKey(best, product) in keys {
        var v :| v in views && v.user == user && EntryKey(v) == BestKey(best, product);
      }
    }
    forall k
      ensures k in Keys(after, user) <==> k in Put(best, keys, product, at)
    {
      if k in Keys(after, user) {
        var v :| v in after && v.user == user && EntryKey(v) == k;
      }
      if k in keys && k.slug != product {
        var v :| v in views && v.user == user && EntryKey(v) == k;
        assert v in after;
      }
      if k == EntryKey(written) {
        assert written in after;
      }
    }
  }

  lemma {:induction false} RunIsTop(calls: seq<Call>, user: int, retention: nat)
    requires retention < READ_LIMIT
    ensures Distinct(Run(calls, retention)) && Top(BestOf(calls, user), Keys(Run(calls, retention), user), retention)
    decreases |calls|
  {
    hide Distinct, Keys, Top, Upsert, RemoveEntries, Overflow, Put;
    if calls == [] {
      NoRows(user, retention);
    } else {
      var init, c := calls[..|calls| - 1], calls[|calls| - 1];
      var views := Run(init, retention);
      RunIsTop(init, user, retention);
      RecordKeepsDistinct(views, c.user, c.product, c.at, retention);
      if c.user == user {
        var best, written := BestOf(init, user), Upsert(views, user, c.product, c.at);
        UpsertFacts(views, user, c.product, c.at);
        UpsertIsPut(views, user, c.product, c.at, best, retention);
        TopIsOneEach(best, Keys(views, user), retention);
        PutSize(best, Keys(views, user), c.product, c.at);
        TrimFacts(written, user, retention);
        RecordKeepsTop(best, Keys(views, user), c.product, c.at, Keys(Run(calls, retention), user), retention);
      } else {
        OtherUsersUntouched(views, c.user, c.product, c.at, retention, user);
      }
    }
  }

  lemma NoRows(user: int, retention: nat)
    ensures Distinct([]) && Top(map[], Keys([], user), retention)
  {
    assert Keys([], user) == {};
  }

  /** Record-only runs keep, for every user, exactly the retained number of greatest (last viewed,
      listing) pairs of the full log, for times in any order. */
  lemma HistoryIsGreatest(calls: seq<Call>, user: int, retention: nat)
    requires retention < READ_LIMIT
    ensures KeepsGreatest(BestOf(calls, user), Keys(Run(calls, retention), user), retention)
    ensures |Keys(Run(calls, retention), user)| <= retention
  {
    hide Run, BestOf, Keys, KeepsGreatest;
    RunIsTop(calls, user, retention);
    TopKeepsGreatest(BestOf(calls, user), Keys(Run(calls, retention), user), retention);
  }

  /******* The bound is exact *******/

  function Name(n: nat): string {
    seq(n, _ => 'a')
  }

  // One view each of n different listings.
  function Visits(n: nat): seq<Call> {
    if n == 0 then [] else Visits(n - 1) + [Call(0, Name(n), 0)]
  }

  lemma LargeRetentionNeverTrims(views: seq<View>, user: int, product: string, at: int, retention: nat)
    requires retention >= READ_LIMIT
    ensures Record(views, user, product, at, retention) == Upsert(views, user, product, at)
  {
    RemoveNothing(Upsert(views, user, product, at), user);
  }

  lemma {:induction false} RemoveNothing(views: seq<View>, user: int)
    ensures RemoveEntries(views, user, {}) == views
  {
    if views != [] {
      RemoveNothing(views[1..], user);
    }
  }

  // One more visit, of a listing with a longer name than all before it.
  lemma VisitAdds(n: nat, retention: nat)
    requires retention >= READ_LIMIT && n > 0
    requires var views := Run(Visits(n - 1), retention); Distinct(views) && forall v <- views :: |v.product| < n
    ensures var views, after := Run(Visits(n - 1), retention), Run(Visits(n), retention);
      && after == Upsert(views, 0, Name(n), 0) && Distinct(after)
      && forall v :: v in after <==> v in views || v == View(0, Name(n), 0)
  {
    hide Distinct, Upsert, Record;
    var views := Run(Visits(n - 1), retention);
    VisitsLength(n);
    assert Visits(n)[..n - 1] == Visits(n - 1) by { VisitsLength(n - 1); }
    LargeRetentionNeverTrims(views, 0, Name(n), 0, retention);
    UpsertFacts(views, 0, Name(n), 0);
    WrittenFacts(views, 0, Name(n), 0);
  }

  lemma LongestName(views: seq<View>, after: seq<View>, n: nat)
    requires n > 0 && forall v <- views :: |v.product| <= n - 1
    requires forall v :: v in after <==> v in views || v == View(0, Name(n), 0)
    ensures forall v <- after :: |v.product| <= n
    ensures |Keys(after, 0)| == |Keys(views, 0)| + 1
  {
    NewKey(views, after, Name(n));
  }

  lemma NoVisits(retention: nat)
    ensures Run(Visits(0), retention) == [] && Distinct([]) && |Keys([], 0)| == 0
  {
    NoRows(0, retention);
    NoEntries(0);
  }

  lemma {:induction false} VisitsPileUp(n: nat, retention: nat)
    requires retention >= READ_LIMIT
    ensures var views := Run(Visits(n), retention);
      Distinct(views) && |Keys(views, 0)| == n && forall v <- views :: |v.product| <= n
  {
    hide Distinct, Upsert, Keys, Run, Visits, Name;
    if n == 0 {
      NoVisits(retention);
    } else {
      VisitsPileUp(n - 1, retention);
      VisitAdds(n, retention);
      LongestName(Run(Visits(n - 1), retention), Run(Visits(n), retention), n);
    }
  }

  lemma {:induction false} VisitsLength(n: nat)
    ensures |Visits(n)| == n && (n > 0 ==> Visits(n)[n - 1] == Call(0, Name(n), 0))
  {
    if n > 0 {
      VisitsLength(n - 1);
    }
  }

  lemma NewKey(views: seq<View>, after: seq<View>, product: string)
    requires forall v <- views :: |v.product| < |product|
    requires forall v :: v in after <==> v in views || v == View(0, product, 0)
    ensures |Keys(after, 0)| == |Keys(views, 0)| + 1
  {
    assert View(0, product, 0) in after;
    assert Keys(after, 0) == Keys(views, 0) + {Key(0, product)};
  }

  /** The table stays within the retention in every run exactly when the retention is below the
      read limit, that is at most 100. */
  lemma RetentionBoundIsExact(retention: nat)
    ensures (forall calls: seq<Call>, user: int :: |Keys(Run(calls, retention), user)| <= retention) <==>
        retention <= 100
  {
    if retention <= 100 {
      forall calls: seq<Call>, user: int
        ensures |Keys(Run(calls, retention), user)| <= retention
      {
        HistoryIsGreatest(calls, user, retention);
      }
    } else {
      VisitsPileUp(retention + 1, retention);
    }
  }

  /******* The service *******/

  class RecentlyViewedService {
    const retention: nat
    var views: seq<View>

    constructor (retention: nat)
      ensures this.retention == retention && views == []
    {
      this.retention := retention;
      views := [];
    }

    // `record`; `listing` is None when the public may not see the listing (404).
    method RecordView(user: int, listing: Option<string>, at: int) returns (found: bool)
      modifies this
      ensures found <==> listing.Some?
      ensures views == if found then Record(old(views), user, listing.value, at, retention) else old(views)
    {
      if listing.None? {
        return false;
      }
      views := Upsert(views, user, listing.value, at);
      var entries := EntriesForUpdate(views, user);
      var doomed := if |entries| <= retention then {} else set r <- entries[retention..] :: r.key.slug;
      views := RemoveEntries(views, user, doomed);
      return true;
    }

    method Remove(user: int, product: string)
      modifies this
      ensures forall v :: v in views <==> v in old(views) && !(v.user == user && v.product == product)
      ensures old(Distinct(views)) ==> Distinct(views)
    {
      RemoveFacts(views, user, {product});
      views := RemoveEntries(views, user, {product});
    }

    method ClearAll(user: int)
      modifies this
      ensures forall v :: v in views <==> v in old(views) && v.user != user
      ensures old(Distinct(views)) ==> Distinct(views)
    {
      var products := set v <- views | v.user == user :: v.product;
      RemoveFacts(views, user, products);
      views := RemoveEntries(views, user, products);
    }
  }
}
