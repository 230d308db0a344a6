/**
 Listing images (services/product_image_service.py, repositories/product_image_repository.py):
 positions renumbered in two phases under a per-row uniqueness constraint, and image objects
 kept in a storage that the database transaction cannot undo.
 */
module ProductImages {
  import opened Common

  const MAX_IMAGES: nat := 8

  // A row without its public reference, which is the key of the table.
  datatype Image = Image(listing: int, key: int, position: int)

  /******* Constraints and order *******/

  // uq_product_images_storage_key, uq_product_images_listing_position, ck_product_images_position
  ghost predicate Constraints(rows: map<int, Image>) {
    && (forall r <- rows :: 0 <= rows[r].position <= 15)
    && (forall a <- rows, b <- rows :: a != b ==>
          rows[a].key != rows[b].key && !(rows[a].listing == rows[b].listing && rows[a].position == rows[b].position))
  }

  // SELECT ... WHERE product_listing_id = listing ORDER BY position
  ghost predicate IsListing(rows: map<int, Image>, listing: int, refs: seq<int>) {
    && (forall r :: r in refs <==> r in rows && rows[r].listing == listing)
    && Increasing(rows, refs)
  }

  ghost predicate HasRoom(rows: map<int, Image>, listing: int) {
    exists refs: seq<int> :: IsListing(rows, listing, refs) && |refs| < MAX_IMAGES
  }

  ghost predicate Increasing(rows: map<int, Image>, refs: seq<int>) {
    && (forall i :: 0 <= i < |refs| ==> refs[i] in rows)
    && forall i, j :: 0 <= i < j < |refs| ==> rows[refs[i]].position < rows[refs[j]].position
  }

  // Positions of every listing are exactly 0 .. n-1, with n at most 8.
  ghost predicate Dense(rows: map<int, Image>) {
    forall listing: int, refs: seq<int> :: IsListing(rows, listing, refs) ==> Numbered(rows, refs)
  }

  ghost predicate Numbered(rows: map<int, Image>, refs: seq<int>) {
    |refs| <= MAX_IMAGES && forall i :: 0 <= i < |refs| ==> refs[i] in rows && rows[refs[i]].position == i
  }

  lemma HeadIsMember(refs: seq<int>)
    ensures |refs| > 0 ==> refs[0] in refs
  {
  }

  lemma EmptyIsDense()
    ensures Dense(map[])
  {
    var none: map<int, Image> := map[];
    forall listing: int, refs: seq<int> | IsListing(none, listing, refs)
      ensures Numbered(none, refs)
    {
      HeadIsMember(refs);
    }
  }

  function IndexOf(refs: seq<int>, r: int): (i: nat)
    requires r in refs
    ensures i < |refs| && refs[i] == r
  {
    if refs[0] == r then 0 else 1 + IndexOf(refs[1..], r)
  }

  // The table with the given rows numbered in the given order.
  function Place(rows: map<int, Image>, ordered: seq<int>, base: nat): map<int, Image> {
    map r <- rows :: if r in ordered then rows[r].(position := base + IndexOf(ordered, r)) else rows[r]
  }

  ghost predicate NoDuplicates(refs: seq<int>) {
    forall i, j :: 0 <= i < j < |refs| ==> refs[i] != refs[j]
  }

  lemma IndexIsInverse(refs: seq<int>, i: nat)
    requires NoDuplicates(refs) && i < |refs|
    ensures IndexOf(refs, refs[i]) == i
  {
    var k := IndexOf(refs, refs[i]);
    assert refs[k] == refs[i];
  }

  // Two lists of one listing are the same list.
  lemma {:induction false} ListingIsUnique(rows: map<int, Image>, listing: int, a: seq<int>, b: seq<int>)
    requires IsListing(rows, listing, a) && IsListing(rows, listing, b)
    ensures a == b
  {
    PrefixOf(rows, listing, a, b, |a|);
    PrefixOf(rows, listing, b, a, |b|);
  }

  lemma {:induction false} PrefixOf(rows: map<int, Image>, listing: int, a: seq<int>, b: seq<int>, n: nat)
    requires IsListing(rows, listing, a) && IsListing(rows, listing, b) && n <= |a|
    ensures n <= |b| && forall k :: 0 <= k < n ==> a[k] == b[k]
  {
    if n > 0 {
      PrefixOf(rows, listing, a, b, n - 1);
      NextAgrees(rows, listing, a, b, n - 1);
    }
  }

  lemma NextAgrees(rows: map<int, Image>, listing: int, a: seq<int>, b: seq<int>, m: nat)
    requires IsListing(rows, listing, a) && IsListing(rows, listing, b)
    requires m < |a| && m <= |b| && forall k :: 0 <= k < m ==> a[k] == b[k]
    ensures m < |b| && a[m] == b[m]
  {
    var x := a[m];
    assert x in a && x in b;
    var i :| 0 <= i < |b| && b[i] == x;
    assert m <= i;
    var y := b[m];
    assert y in b && y in a;
    var j :| 0 <= j < |a| && a[j] == y;
    assert rows[y].position <= rows[x].position;
  }

  // A listing has room exactly for an eighth image.
  lemma RoomMeans(rows: map<int, Image>, listing: int, images: seq<int>)
    requires IsListing(rows, listing, images)
    ensures HasRoom(rows, listing) <==> |images| < 8
  {
    forall refs: seq<int> | IsListing(rows, listing, refs)
      ensures refs == images
    {
      ListingIsUnique(rows, listing, refs, images);
    }
  }

  /** Renumbering a whole listing keeps every listing dense and leaves the others alone. */
  lemma PlaceKeepsDense(rows: map<int, Image>, listing: int, ordered: seq<int>)
    requires Constraints(rows) && NoDuplicates(ordered) && |ordered| <= MAX_IMAGES
    requires forall r :: r in ordered <==> r in rows && rows[r].listing == listing
    requires forall other: int, refs: seq<int> :: other != listing && IsListing(rows, other, refs) ==>
        Numbered(rows, refs)
    ensures var after := Place(rows, ordered, 0);
      Constraints(after) && Dense(after) && IsListing(after, listing, ordered)
  {
    var after := Place(rows, ordered, 0);
    forall i | 0 <= i < |ordered|
      ensures ordered[i] in after && after[ordered[i]].position == i
    {
      assert ordered[i] in ordered;
      IndexIsInverse(ordered, i);
    }
    assert IsListing(after, listing, ordered);
    forall other: int, refs: seq<int> | IsListing(after, other, refs)
      ensures Numbered(after, refs)
    {
      if other == listing {
        ListingIsUnique(after, listing, refs, ordered);
      } else {
        assert forall r <- refs :: r !in ordered && after[r] == rows[r];
        assert IsListing(rows, other, refs);
        assert Numbered(rows, refs);
      }
    }
    forall a, b | a in after && b in after && a != b
      ensures after[a].key != after[b].key
          && !(after[a].listing == after[b].listing && after[a].position == after[b].position)
    {
    }
  }

  /******* Two-phase renumbering *******/

  // The table when only the rows in `done` have reached their new position.
  function Partly(rows: map<int, Image>, ordered: seq<int>, base: nat, done: set<int>): map<int, Image> {
    map r <- rows :: if r in ordered && r in done then rows[r].(position := base + IndexOf(ordered, r)) else rows[r]
  }

  // The rows of one listing, in some order, with no position in the target range yet.
  ghost predicate Movable(rows: map<int, Image>, listing: int, ordered: seq<int>, base: nat) {
    && Constraints(rows) && NoDuplicates(ordered)
    && (forall r :: r in ordered <==> r in rows && rows[r].listing == listing)
    && |ordered| <= MAX_IMAGES && base + |ordered| <= 16
    && forall r <- ordered :: r in rows && !(base <= rows[r].position < base + |ordered|)
  }

  /** Whatever rows a flush has reached so far, no constraint is violated. */
  lemma PartlyKeepsConstraints(rows: map<int, Image>, listing: int, ordered: seq<int>, base: nat, done: set<int>)
    requires Movable(rows, listing, ordered, base)
    ensures Constraints(Partly(rows, ordered, base, done))
  {
    var now := Partly(rows, ordered, base, done);
    forall a, b | a in now && b in now && a != b
      ensures now[a].key != now[b].key && !(now[a].listing == now[b].listing && now[a].position == now[b].position)
    {
      if a in ordered && b in ordered {
        assert ordered[IndexOf(ordered, a)] == a && ordered[IndexOf(ordered, b)] == b;
      }
    }
  }

  lemma PartlyBounds(rows: map<int, Image>, listing: int, ordered: seq<int>, base: nat)
    requires Movable(rows, listing, ordered, base)
    ensures Constraints(rows)
    ensures Partly(rows, ordered, base, {}) == rows
    ensures Partly(rows, ordered, base, set r | r in ordered) == Place(rows, ordered, base)
  {
  }

  lemma PartlyStep(rows: map<int, Image>, listing: int, ordered: seq<int>, base: nat, done: set<int>, r: int)
    requires Movable(rows, listing, ordered, base) && r in ordered && r !in done
    ensures var now := Partly(rows, ordered, base, done);
      r in now && now[r := now[r].(position := base + IndexOf(ordered, r))] == Partly(rows, ordered, base, done + {r})
  {
  }

  // The first phase leaves no row in the range of the second.
  lemma PlacedIsMovable(rows: map<int, Image>, listing: int, ordered: seq<int>)
    requires Movable(rows, listing, ordered, MAX_IMAGES)
    ensures var mid := Place(rows, ordered, MAX_IMAGES);
      && (Constraints(mid) ==> Movable(mid, listing, ordered, 0))
      && Place(mid, ordered, 0) == Place(rows, ordered, 0)
  {
  }

  function Without(refs: seq<int>, gone: int): (r: seq<int>)
    ensures forall x :: x in r <==> x in refs && x != gone
  {
    if refs == [] then [] else
    (if refs[0] == gone then [] else [refs[0]]) + Without(refs[1..], gone)
  }

  // Dropping a row from a listing leaves the rest in the same order.
  lemma {:induction false} WithoutKeepsOrder(rows: map<int, Image>, refs: seq<int>, gone: int)
    requires Increasing(rows, refs)
    ensures Increasing(rows, Without(refs, gone)) && |Without(refs, gone)| <= |refs|
  {
    if refs != [] {
      var rest := refs[1..];
      WithoutKeepsOrder(rows, rest, gone);
      if refs[0] != gone {
        Prepend(rows, refs[0], rest, Without(rest, gone));
      }
    }
  }

  lemma Prepend(rows: map<int, Image>, first: int, rest: seq<int>, kept: seq<int>)
    requires Increasing(rows, [first] + rest) && Increasing(rows, kept)
    requires forall r <- kept :: r in rest
    ensures Increasing(rows, [first] + kept)
  {
    var all, long := [first] + kept, [first] + rest;
    assert long[0] == first;
    forall j | 0 < j < |all|
      ensures rows[first].position < rows[all[j]].position
    {
      assert all[j] in kept;
      var k :| 0 <= k < |rest| && rest[k] == all[j];
      assert long[k + 1] == all[j];
    }
    forall i, j | 0 <= i < j < |all|
      ensures rows[all[i]].position < rows[all[j]].position
    {
      if i > 0 { assert all[i] == kept[i - 1] && all[j] == kept[j - 1]; }
    }
  }

  function Keys(rows: map<int, Image>): set<int> {
    set r <- rows :: rows[r].key
  }

  /** A row appended at the end of a listing keeps every listing dense. */
  lemma AppendKeepsDense(rows: map<int, Image>, listing: int, images: seq<int>, r: int, key: int)
    requires Constraints(rows) && Dense(rows) && IsListing(rows, listing, images)
    requires |images| < MAX_IMAGES && r !in rows && key !in Keys(rows)
    ensures var after := rows[r := Image(listing, key, |images|)];
      && Constraints(after) && Dense(after) && IsListing(after, listing, images + [r])
      && Keys(after) == Keys(rows) + {key}
    ensures forall refs: seq<int> :: IsListing(rows, listing, refs) ==> refs == images
  {
    forall refs: seq<int> | IsListing(rows, listing, refs)
      ensures refs == images
    {
      ListingIsUnique(rows, listing, refs, images);
    }
    var after := rows[r := Image(listing, key, |images|)];
    assert Numbered(rows, images);
    forall q | q in rows && rows[q].listing == listing
      ensures rows[q].position < |images|
    {
      assert q in images;
    }
    assert Keys(after) == Keys(rows) + {key} by {
      assert after[r].key == key;
      forall q | q in rows ensures rows[q].key in Keys(after) { assert q in after; }
    }
    forall a, b | a in after && b in after && a != b
      ensures after[a].key != after[b].key
          && !(after[a].listing == after[b].listing && after[a].position == after[b].position)
    {
      assert a in rows ==> rows[a].key in Keys(rows);
      assert b in rows ==> rows[b].key in Keys(rows);
    }
    var longer := images + [r];
    assert IsListing(after, listing, longer);
    forall other: int, refs: seq<int> | IsListing(after, other, refs)
      ensures Numbered(after, refs)
    {
      if other == listing {
        ListingIsUnique(after, listing, refs, longer);
      } else {
        assert forall q <- refs :: q != r && after[q] == rows[q];
        assert IsListing(rows, other, refs);
        assert Numbered(rows, refs);
      }
    }
  }

  // Comparing length and set is comparing up to order.
  lemma PermutationTest(rows: map<int, Image>, listing: int, images: seq<int>, requested: seq<int>)
    requires IsListing(rows, listing, images)
    ensures (|requested| == |images| && SetOf(requested) == SetOf(images))
       <==> (NoDuplicates(requested) && forall r :: r in requested <==> r in rows && rows[r].listing == listing)
  {
    SizeOfSet(images);
    SizeOfSet(requested);
    assert NoDuplicates(images);
    if forall r :: r in requested <==> r in rows && rows[r].listing == listing {
      assert forall r :: r in requested <==> r in images;
      assert SetOf(requested) == SetOf(images);
    }
    if SetOf(requested) == SetOf(images) {
      forall r ensures r in requested <==> r in images {
        assert r in requested <==> r in SetOf(requested);
        assert r in images <==> r in SetOf(images);
      }
    }
  }

  function SetOf(refs: seq<int>): set<int> {
    set r | r in refs
  }

  lemma {:induction false} SizeOfSet(refs: seq<int>)
    ensures |SetOf(refs)| <= |refs|
    ensures |SetOf(refs)| == |refs| <==> NoDuplicates(refs)
  {
    if refs != [] {
      var rest := refs[1..];
      SizeOfSet(rest);
      var first := refs[0];
      assert refs == [first] + rest;
      assert SetOf(refs) == SetOf(rest) + {first};
      assert first in rest ==> SetOf(refs) == SetOf(rest);
      FirstIsNew(refs);
    }
  }

  lemma FirstIsNew(refs: seq<int>)
    requires refs != []
    ensures NoDuplicates(refs) <==> refs[0] !in refs[1..] && NoDuplicates(refs[1..])
  {
    var first, rest := refs[0], refs[1..];
    if NoDuplicates(refs) {
      assert forall i :: 0 <= i < |rest| ==> rest[i] == refs[i + 1] && rest[i] != first;
    }
    if first !in rest && NoDuplicates(rest) {
      assert forall i :: 0 < i < |refs| ==> refs[i] == rest[i - 1] && refs[i] in rest;
    }
  }

  lemma DenseIsMovable(rows: map<int, Image>, listing: int, images: seq<int>, requested: seq<int>)
    requires Constraints(rows) && Dense(rows) && IsListing(rows, listing, images)
    requires |requested| == |images| && NoDuplicates(requested)
    requires forall r :: r in requested <==> r in rows && rows[r].listing == listing
    ensures Movable(rows, listing, requested, MAX_IMAGES)
  {
    assert Numbered(rows, images);
    forall r | r in requested
      ensures rows[r].position < MAX_IMAGES
    {
      assert r in images;
    }
  }

  lemma PlaceKeepsKeys(rows: map<int, Image>, ordered: seq<int>)
    ensures Keys(Place(rows, ordered, 0)) == Keys(rows)
  {
    var after := Place(rows, ordered, 0);
    assert after.Keys == rows.Keys && forall r <- rows :: after[r].key == rows[r].key by {
      hide Keys, IndexOf;
    }
    KeysWithin(after, rows);
    KeysWithin(rows, after);
  }

  lemma KeysWithin(a: map<int, Image>, b: map<int, Image>)
    requires forall r <- a :: r in b && b[r].key == a[r].key
    ensures Keys(a) <= Keys(b)
  {
    forall k | k in Keys(a)
      ensures k in Keys(b)
    {
      var r :| r in a && a[r].key == k;
      assert r in b && b[r].key == k;
    }
  }

  /** After a row is deleted the rest of its listing can be renumbered, and is then dense again. */
  lemma DeletionIsMovable(rows: map<int, Image>, listing: int, images: seq<int>, gone: int)
    requires Constraints(rows) && Dense(rows) && IsListing(rows, listing, images) && gone in images
    ensures var fewer := rows - {gone};
      var remaining := Without(images, gone);
      var after := Place(fewer, remaining, 0);
      && Movable(fewer, listing, remaining, MAX_IMAGES)
      && Constraints(after) && Dense(after) && IsListing(after, listing, remaining)
      && after.Keys == rows.Keys - {gone}
      && (forall r <- after :: rows[r].listing != listing ==> after[r] == rows[r])
      && forall refs: seq<int> :: IsListing(rows, listing, refs) ==> IsListing(after, listing, Without(refs, gone))
  {
    var fewer, remaining := rows - {gone}, Without(images, gone);
    assert Numbered(rows, images);
    WithoutKeepsOrder(rows, images, gone);
    forall r | r in remaining
      ensures rows[r].position < MAX_IMAGES
    {
      assert r in images;
    }
    assert NoDuplicates(remaining);
    OthersStayNumbered(rows, listing, gone);
    PlaceKeepsDense(fewer, listing, remaining);
    assert fewer.Keys == rows.Keys - {gone};
    forall refs: seq<int> | IsListing(rows, listing, refs)
      ensures refs == images
    {
      ListingIsUnique(rows, listing, refs, images);
    }
  }

  lemma OthersStayNumbered(rows: map<int, Image>, listing: int, gone: int)
    requires Dense(rows) && gone in rows && rows[gone].listing == listing
    ensures forall other: int, refs: seq<int> :: other != listing && IsListing(rows - {gone}, other, refs) ==>
        Numbered(rows - {gone}, refs)
  {
    var fewer := rows - {gone};
    forall other: int, refs: seq<int> | other != listing && IsListing(fewer, other, refs)
      ensures Numbered(fewer, refs)
    {
      assert IsListing(rows, other, refs);
      assert Numbered(rows, refs);
    }
  }

  lemma DeletionKeepsKeys(rows: map<int, Image>, gone: int, remaining: seq<int>)
    requires Constraints(rows) && gone in rows
    ensures Keys(Place(rows - {gone}, remaining, 0)) == Keys(rows) - {rows[gone].key}
    ensures rows[gone].key in Keys(rows)
  {
    var fewer := rows - {gone};
    PlaceKeepsKeys(fewer, remaining);
    assert forall r :: r in fewer <==> r in rows && r != gone;
    forall k | k in Keys(rows) && k != rows[gone].key
      ensures k in Keys(fewer)
    {
      var r :| r in rows && rows[r].key == k;
      assert r in fewer;
    }
  }

  // Outcome of an exclusive save: stored, refused, or failed after publication with
  // the adapter's own clean-up failing too.
  datatype SaveOutcome = Stored | Refused | LeftBehind

  class ImageService {
    var rows: map<int, Image>
    var stored: set<int>          // keys of existing objects
    ghost var uploads: set<int>   // saved by a running request, row not yet committed
    ghost var deletions: set<int> // row deleted by a running request, object not yet
    ghost var leaked: set<int>    // clean-ups that failed and were logged

    /**
     Positions are dense; every row has its object; and every object is accounted for:
     it belongs to a row, to a running request, or to a logged clean-up failure.
     */
    ghost predicate Valid()
      reads this
    {
      && Constraints(rows) && Dense(rows)
      && stored == Keys(rows) + uploads + deletions + leaked
      && Keys(rows) !! uploads !! deletions !! leaked
    }

    constructor ()
      ensures Valid() && rows == map[] && stored == {}
    {
      rows, stored, uploads, deletions, leaked := map[], {}, {}, {}, {};
      EmptyIsDense();
    }

    // One UPDATE; the database would refuse it if a constraint failed.
    method SetPosition(r: int, position: nat)
      requires r in rows && Constraints(rows[r := rows[r].(position := position)])
      modifies this`rows
      ensures rows == old(rows)[r := old(rows)[r].(position := position)]
    {
      rows := rows[r := rows[r].(position := position)];
    }

    /** One flush of new positions, rows updated in any order. */
    method Flush(ghost listing: int, ordered: seq<int>, base: nat)
      requires Movable(rows, listing, ordered, base)
      modifies this`rows
      ensures rows == Place(old(rows), ordered, base) && Constraints(rows)
    {
      hide Constraints, Partly, Place, Movable;
      var waiting: set<int> := set r | r in ordered;
      ghost var done: set<int> := {};
      ghost var before, all := rows, waiting;
      PartlyBounds(before, listing, ordered, base);
      while waiting != {}
        invariant done + waiting == all && done !! waiting
        invariant rows == Partly(before, ordered, base, done) && Constraints(rows)
        decreases |waiting|
      {
        var r := Any(waiting);
        assert r in all && r in ordered;
        PartlyStep(before, listing, ordered, base, done, r);
        PartlyKeepsConstraints(before, listing, ordered, base, done + {r});
        SetPosition(r, base + IndexOf(ordered, r));
        waiting := waiting - {r};
        done := done + {r};
      }
      assert done == all;
    }

    /** All rows of a listing renumbered in the given order, never breaking a constraint. */
    method Resequence(ghost listing: int, ordered: seq<int>)
      requires Movable(rows, listing, ordered, MAX_IMAGES)
      modifies this`rows
      ensures rows == Place(old(rows), ordered, 0) && Constraints(rows)
    {
      hide Constraints, Place, Movable;
      PlacedIsMovable(rows, listing, ordered);
      Flush(listing, ordered, MAX_IMAGES);
      Flush(listing, ordered, 0);
    }

    /** The rows of a listing by position. */
    method ListForProduct(listing: int) returns (refs: seq<int>)
      requires Constraints(rows)
      ensures IsListing(rows, listing, refs)
    {
      refs := [];
      for position := 0 to 16
        invariant forall r :: r in refs <==> r in rows && rows[r].listing == listing && rows[r].position < position
        invariant Increasing(rows, refs)
      {
        if r :| r in rows.Keys && rows[r].listing == listing && rows[r].position == position {
          assert forall q <- rows :: rows[q].listing == listing && rows[q].position == position ==> q == r;
          refs := refs + [r];
        }
      }
    }

    /** First transaction of an upload: the object is saved, under a key nobody holds. */
    method SaveObject(listing: int, key: int, eligible: bool, outcome: SaveOutcome) returns (saved: bool)
      requires Valid()
      modifies this
      ensures Valid() && rows == old(rows) && deletions == old(deletions)
      ensures saved <==> eligible && HasRoom(rows, listing) && key !in old(stored) && outcome.Stored?
      ensures saved ==> uploads == old(uploads) + {key} && stored == old(stored) + {key}
      ensures !saved ==> uploads == old(uploads) && stored - leaked == old(stored) - old(leaked)
    {
      var images := ListForProduct(listing);
      RoomMeans(rows, listing, images);
      if !eligible || |images| >= MAX_IMAGES || key in stored || outcome == Refused {
        return false;
      }
      stored := stored + {key};
      if outcome == LeftBehind {
        leaked := leaked + {key};
        return false;
      }
      uploads := uploads + {key};
      return true;
    }

    /** Second transaction: the row, appended after the others; or nothing at all. */
    method InsertMetadata(listing: int, key: int, candidates: seq<int>, eligible: bool, commits: bool)
      returns (reference: Option<int>)
      requires Valid() && key in uploads && |candidates| == 8
      modifies this
      ensures Valid() && stored == old(stored) && deletions == old(deletions) && leaked == old(leaked)
      ensures reference.Some? <==>
        && eligible && commits && HasRoom(old(rows), listing)
        && exists r <- candidates :: r !in old(rows)
      ensures reference.None? ==> rows == old(rows) && uploads == old(uploads)
      ensures reference.Some? ==>
        && reference.value !in old(rows) && uploads == old(uploads) - {key}
        && forall refs: seq<int> :: IsListing(old(rows), listing, refs) ==>
          && |refs| < MAX_IMAGES && IsListing(rows, listing, refs + [reference.value])
          && rows == old(rows)[reference.value := Image(listing, key, |refs|)]
    {
      var images := ListForProduct(listing);
      RoomMeans(rows, listing, images);
      if !eligible || |images| >= MAX_IMAGES || !commits {
        return None;
      }
      for attempt := 0 to 8
        invariant forall i :: 0 <= i < attempt ==> candidates[i] in rows
      {
        var r := candidates[attempt];
        if r !in rows {
          AppendKeepsDense(rows, listing, images, r, key);
          rows := rows[r := Image(listing, key, |images|)];
          uploads := uploads - {key};
          return Some(r);
        }
      }
      return None;
    }

    /** After a failed second transaction: the saved object is removed, or the failure logged. */
    method Compensate(key: int, removed: bool)
      requires Valid() && key in uploads
      modifies this
      ensures Valid() && rows == old(rows) && deletions == old(deletions)
      ensures uploads == old(uploads) - {key}
      ensures removed ==> stored == old(stored) - {key} && leaked == old(leaked)
      ensures !removed ==> stored == old(stored) && leaked == old(leaked) + {key}
    {
      uploads := uploads - {key};
      if removed {
        stored := stored - {key};
      } else {
        leaked := leaked + {key};
      }
    }

    /** A reorder is accepted exactly for a permutation of the current references, and realises it. */
    method Reorder(listing: int, requested: seq<int>, eligible: bool, commits: bool) returns (ok: bool)
      requires Valid()
      modifies this`rows
      ensures Valid()
      ensures ok <==> eligible && commits && NoDuplicates(requested)
                      && forall r :: r in requested <==> r in old(rows) && old(rows)[r].listing == listing
      ensures ok ==> IsListing(rows, listing, requested) && rows == Place(old(rows), requested, 0)
      ensures !ok ==> rows == old(rows)
    {
      var images := ListForProduct(listing);
      PermutationTest(rows, listing, images, requested);
      if !eligible || |requested| != |images| || SetOf(requested) != SetOf(images) || !commits {
        return false;
      }
      DenseIsMovable(rows, listing, images, requested);
      PlaceKeepsDense(rows, listing, requested);
      PlaceKeepsKeys(rows, requested);
      Resequence(listing, requested);
      return true;
    }

    /** The row goes, the others close ranks in their old order; its object is still there. */
    method DeleteMetadata(listing: int, reference: int, active: bool, commits: bool) returns (key: Option<int>)
      requires Valid()
      modifies this
      ensures Valid() && stored == old(stored) && uploads == old(uploads) && leaked == old(leaked)
      ensures key.Some? <==> active && commits && reference in old(rows) && old(rows)[reference].listing == listing
      ensures key.None? ==> rows == old(rows) && deletions == old(deletions)
      ensures key.Some? ==>
        && key.value == old(rows)[reference].key && deletions == old(deletions) + {key.value}
        && rows.Keys == old(rows).Keys - {reference}
        && (forall r <- rows :: rows[r].listing != listing ==> rows[r] == old(rows)[r])
        && forall refs: seq<int> :: IsListing(old(rows), listing, refs) ==>
            IsListing(rows, listing, Without(refs, reference))
    {
      hide Keys, Constraints, Dense, Place, Movable, IndexOf, Numbered;
      var images := ListForProduct(listing);
      if !active || reference !in images || !commits {
        return None;
      }
      var gone := rows[reference].key;
      var remaining := Without(images, reference);
      DeletionIsMovable(rows, listing, images, reference);
      DeletionKeepsKeys(rows, reference, remaining);
      rows := rows - {reference};
      Resequence(listing, remaining);
      deletions := deletions + {gone};
      return Some(gone);
    }

    /** After the commit of a deletion: the object goes, or the failure is logged. */
    method CleanUp(key: int, removed: bool)
      requires Valid() && key in deletions
      modifies this
      ensures Valid() && rows == old(rows) && uploads == old(uploads)
      ensures deletions == old(deletions) - {key}
      ensures removed ==> stored == old(stored) - {key} && leaked == old(leaked)
      ensures !removed ==> stored == old(stored) && leaked == old(leaked) + {key}
    {
      deletions := deletions - {key};
      if removed {
        stored := stored - {key};
      } else {
        leaked := leaked + {key};
      }
    }

    /**
     The audit never reports a missing object, and its orphans are exactly the objects of
     running requests and of logged clean-up failures.
     */
    method Audit() returns (missing: seq<int>, orphans: seq<int>)
      requires Valid()
      ensures missing == []
      ensures forall k :: k in orphans <==> k in uploads + deletions + leaked
      ensures NoDuplicates(orphans)
    {
      missing, orphans := [], [];
      var expected := Keys(rows);
      var left: set<int> := rows.Keys;
      while left != {}
        invariant left <= rows.Keys && missing == []
        decreases |left|
      {
        var r := Any(left);
        assert rows[r].key in Keys(rows);
        if rows[r].key !in stored {
          missing := missing + [r];
        }
        left := left - {r};
      }
      left := stored;
      while left != {}
        invariant left <= stored
        invariant forall k :: k in orphans <==> k in stored && k !in left && k !in expected
        invariant NoDuplicates(orphans)
        decreases |left|
      {
        var k := Any(left);
        if k !in expected {
          orphans := orphans + [k];
        }
        left := left - {k};
      }
    }
  }
}
