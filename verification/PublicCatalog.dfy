/**
 What the catalog shows: visible_rows, list_public and is_publicly_active
 (services/catalog_service.py), and the hierarchy check of the browser
 (frontend/src/features/categories/schemas.ts).
 */
module PublicCatalog {
  import opened Common
  import opened Catalog

  datatype Public = Public(slug: int, parentSlug: Option<int>)
  datatype Tree = Tree(root: Public, children: seq<Public>)

  /******* Listing *******/

  // ORDER BY sort_order, slug
  ghost predicate IsList(rows: map<int, Category>, ids: seq<int>) {
    && (forall id :: id in ids <==> id in rows)
    && Sorted(rows, ids)
  }

  ghost predicate Sorted(rows: map<int, Category>, ids: seq<int>) {
    forall i, j :: 0 <= i < j < |ids| ==> Before(rows, ids[i], ids[j])
  }

  ghost predicate Known(rows: map<int, Category>, ids: seq<int>) {
    (forall id <- ids :: id in rows) && forall i :: 0 <= i < |ids| ==> ids[i] in rows
  }

  predicate Before(rows: map<int, Category>, a: int, b: int) {
    a in rows && b in rows &&
    (rows[a].order < rows[b].order || (rows[a].order == rows[b].order && rows[a].slug < rows[b].slug))
  }

  predicate IsPubliclyActive(row: Category, parent: Option<Category>) {
    row.active && (row.parent.None? || (parent.Some? && parent.value.active && parent.value.level == 1))
  }

  function ParentOf(rows: map<int, Category>, id: int): Option<Category>
    requires id in rows
  {
    var p := rows[id].parent;
    if p.Some? && p.value in rows then Some(rows[p.value]) else None
  }

  function ActiveRoots(rows: map<int, Category>): set<int> {
    set id <- rows | rows[id].active && rows[id].parent.None?
  }

  predicate Shown(rows: map<int, Category>, id: int)
    requires id in rows
  {
    rows[id].active && (rows[id].parent.None? || rows[id].parent.value in ActiveRoots(rows))
  }

  function VisibleRows(rows: map<int, Category>, ids: seq<int>): (r: seq<int>)
    requires Known(rows, ids)
  {
    if ids == [] then [] else
    (if Shown(rows, ids[0]) then [ids[0]] else []) + VisibleRows(rows, ids[1..])
  }

  function ActiveOnly(rows: map<int, Category>, ids: seq<int>): seq<int>
    requires Known(rows, ids)
  {
    if ids == [] then [] else
    (if rows[ids[0]].active then [ids[0]] else []) + ActiveOnly(rows, ids[1..])
  }

  /** In a forest the parent's state never hides an active row: both rules say "active". */
  lemma ActiveIsPublic(rows: map<int, Category>, id: int)
    requires Forest(rows) && id in rows
    ensures IsPubliclyActive(rows[id], ParentOf(rows, id)) == rows[id].active == Shown(rows, id)
  {
    assert Placed(rows, id);
  }

  /** The visibility filter of the catalog drops no active row. */
  lemma {:induction false} FilterDropsNoActiveRow(rows: map<int, Category>, ids: seq<int>)
    requires Forest(rows) && Known(rows, ids)
    ensures VisibleRows(rows, ids) == ActiveOnly(rows, ids)
  {
    if ids != [] {
      ActiveIsPublic(rows, ids[0]);
      FilterDropsNoActiveRow(rows, ids[1..]);
    }
  }

  // response: the parent is looked up among the given rows.
  function Response(rows: map<int, Category>, among: seq<int>, id: int): Public
    requires id in rows
  {
    var p := rows[id].parent;
    Public(rows[id].slug, if p.Some? && p.value in among && p.value in rows then Some(rows[p.value].slug) else None)
  }

  // The children of p among the given rows, in their order.
  function Under(rows: map<int, Category>, ids: seq<int>, p: int): (kids: seq<int>)
    requires Known(rows, ids)
    ensures Known(rows, kids)
    ensures forall id :: id in kids <==> id in ids && rows[id].parent == Some(p)
  {
    if ids == [] then [] else
    var rest := ids[..|ids| - 1];
    Under(rows, rest, p) + (if rows[ids[|ids| - 1]].parent == Some(p) then [ids[|ids| - 1]] else [])
  }

  function Responses(rows: map<int, Category>, among: seq<int>, ids: seq<int>): (r: seq<Public>)
    requires Known(rows, ids)
    ensures |r| == |ids| && forall i :: 0 <= i < |ids| ==> r[i] == Response(rows, among, ids[i])
  {
    seq(|ids|, i requires 0 <= i < |ids| => Response(rows, among, ids[i]))
  }

  function Branch(rows: map<int, Category>, ids: seq<int>, root: int): Tree
    requires root in rows && Known(rows, ids)
  {
    Tree(Response(rows, ids, root), Responses(rows, ids, Under(rows, ids, root)))
  }

  function RootsOf(rows: map<int, Category>, ids: seq<int>): (roots: seq<int>)
    requires Known(rows, ids)
    ensures Known(rows, roots)
    ensures forall id :: id in roots <==> id in ids && rows[id].parent.None?
  {
    if ids == [] then [] else
    var rest := ids[..|ids| - 1];
    RootsOf(rows, rest) + (if rows[ids[|ids| - 1]].parent.None? then [ids[|ids| - 1]] else [])
  }

  function Forested(rows: map<int, Category>, ids: seq<int>, roots: seq<int>): (r: seq<Tree>)
    requires Known(rows, roots) && Known(rows, ids)
    ensures |r| == |roots| && forall i :: 0 <= i < |roots| ==> r[i] == Branch(rows, ids, roots[i])
  {
    seq(|roots|, i requires 0 <= i < |roots| => Branch(rows, ids, roots[i]))
  }

  lemma PrefixKnown(rows: map<int, Category>, ids: seq<int>, i: nat)
    requires Known(rows, ids) && i <= |ids|
    ensures Known(rows, ids[..i])
    ensures i < |ids| ==> ids[i] in rows && ids[..i + 1][..i] == ids[..i]
  {
  }

  ghost predicate Gathered(rows: map<int, Category>, among: seq<int>, ids: seq<int>, children: map<int, seq<Public>>)
    requires Known(rows, ids)
  {
    forall p: int :: GatheredFor(rows, among, ids, children, p)
  }

  ghost predicate GatheredFor(rows: map<int, Category>, among: seq<int>, ids: seq<int>,
                              children: map<int, seq<Public>>, p: int)
    requires Known(rows, ids)
  {
    if p in children then children[p] == Responses(rows, among, Under(rows, ids, p)) else Under(rows, ids, p) == []
  }

  function Gathering(rows: map<int, Category>, among: seq<int>, id: int,
                     children: map<int, seq<Public>>): map<int, seq<Public>>
    requires id in rows
  {
    if rows[id].parent.None? then children
    else
      var p := rows[id].parent.value;
      children[p := (if p in children then children[p] else []) + [Response(rows, among, id)]]
  }

  lemma GatherFor(rows: map<int, Category>, among: seq<int>, ids: seq<int>, i: nat, children: map<int, seq<Public>>,
                  p: int)
    requires Known(rows, ids) && i < |ids| && Known(rows, ids[..i]) && Known(rows, ids[..i + 1])
    requires GatheredFor(rows, among, ids[..i], children, p)
    ensures GatheredFor(rows, among, ids[..i + 1], Gathering(rows, among, ids[i], children), p)
  {
    hide Under, Responses, Response;
    UnderStep(rows, ids, i, p);
    ResponsesStep(rows, among, Under(rows, ids[..i], p), ids[i]);
    ResponsesStep(rows, among, [], ids[i]);
  }

  lemma GatherOne(rows: map<int, Category>, among: seq<int>, ids: seq<int>, i: nat, children: map<int, seq<Public>>)
    requires Known(rows, ids) && i < |ids| && Known(rows, ids[..i]) && Known(rows, ids[..i + 1])
    requires Gathered(rows, among, ids[..i], children)
    ensures Gathered(rows, among, ids[..i + 1], Gathering(rows, among, ids[i], children))
  {
    PrefixKnown(rows, ids, i);
    var earlier, later, next := ids[..i], ids[..i + 1], Gathering(rows, among, ids[i], children);
    hide GatheredFor, Gathering, Known;
    forall p: int
      ensures GatheredFor(rows, among, later, next, p)
    {
      assert GatheredFor(rows, among, earlier, children, p);
      GatherFor(rows, among, ids, i, children, p);
    }
  }

  lemma UnderStep(rows: map<int, Category>, ids: seq<int>, i: nat, p: int)
    requires Known(rows, ids) && i < |ids| && Known(rows, ids[..i]) && Known(rows, ids[..i + 1])
    ensures Under(rows, ids[..i + 1], p) ==
            if rows[ids[i]].parent == Some(p) then Under(rows, ids[..i], p) + [ids[i]] else Under(rows, ids[..i], p)
  {
    PrefixKnown(rows, ids, i);
    assert ids[..i + 1][i] == ids[i];
  }

  lemma ResponsesStep(rows: map<int, Category>, among: seq<int>, kids: seq<int>, id: int)
    requires Known(rows, kids) && id in rows
    ensures Known(rows, kids + [id]) && Responses(rows, among, []) == []
    ensures Responses(rows, among, kids + [id]) == Responses(rows, among, kids) + [Response(rows, among, id)]
  {
  }

  lemma RootsStep(rows: map<int, Category>, ids: seq<int>, i: nat)
    requires Known(rows, ids) && i < |ids| && Known(rows, ids[..i]) && Known(rows, ids[..i + 1])
    ensures RootsOf(rows, ids[..i + 1]) ==
            if rows[ids[i]].parent.None? then RootsOf(rows, ids[..i]) + [ids[i]] else RootsOf(rows, ids[..i])
  {
    PrefixKnown(rows, ids, i);
    assert ids[..i + 1][i] == ids[i];
  }

  lemma ForestedStep(rows: map<int, Category>, ids: seq<int>, roots: seq<int>, id: int, children: map<int, seq<Public>>)
    requires Known(rows, roots) && Known(rows, ids) && id in rows && Gathered(rows, ids, ids, children)
    ensures Known(rows, roots + [id]) && Forested(rows, ids, []) == []
    ensures Forested(rows, ids, roots + [id]) == Forested(rows, ids, roots)
            + [Tree(Response(rows, ids, id), if id in children then children[id] else [])]
  {
    ResponsesStep(rows, ids, [], id);
    assert GatheredFor(rows, ids, ids, children, id);
  }

  lemma {:induction false} VisibleAreListed(rows: map<int, Category>, ids: seq<int>)
    requires Known(rows, ids)
    ensures Known(rows, VisibleRows(rows, ids))
    ensures forall id :: id in VisibleRows(rows, ids) <==> id in ids && Shown(rows, id)
  {
    if ids != [] {
      VisibleAreListed(rows, ids[1..]);
    }
  }

  function PublicList(rows: map<int, Category>, ids: seq<int>): seq<Tree>
    requires Known(rows, ids)
  {
    VisibleAreListed(rows, ids);
    var visible := VisibleRows(rows, ids);
    Forested(rows, visible, RootsOf(rows, visible))
  }

  /** list_public over the visible rows: children gathered by parent, then one tree for each root. */
  method ListPublic(rows: map<int, Category>, ids: seq<int>) returns (items: seq<Tree>)
    requires Known(rows, ids)
    ensures items == PublicList(rows, ids)
  {
    hide Gathered, Forested, RootsOf, VisibleRows;
    var visible := VisibleRows(rows, ids);
    VisibleAreListed(rows, ids);
    var children := GatherChildren(rows, visible);
    items := [];
    PrefixKnown(rows, visible, 0);
    NoRoots(rows, visible);
    for i := 0 to |visible|
      invariant Known(rows, visible[..i]) && items == Forested(rows, visible, RootsOf(rows, visible[..i]))
    {
      PrefixKnown(rows, visible, i);
      PrefixKnown(rows, visible, i + 1);
      RootsStep(rows, visible, i);
      var id := visible[i];
      if rows[id].parent.None? {
        ForestedStep(rows, visible, RootsOf(rows, visible[..i]), id, children);
        items := items + [Tree(Response(rows, visible, id), if id in children then children[id] else [])];
      }
    }
    assert visible[..|visible|] == visible;
  }

  lemma NoRoots(rows: map<int, Category>, ids: seq<int>)
    requires Known(rows, ids)
    ensures Known(rows, ids[..0]) && Forested(rows, ids, RootsOf(rows, ids[..0])) == []
  {
  }

  method GatherChildren(rows: map<int, Category>, visible: seq<int>) returns (children: map<int, seq<Public>>)
    requires Known(rows, visible)
    ensures Gathered(rows, visible, visible, children)
  {
    hide Gathered, Under;
    children := map[];
    NothingGathered(rows, visible);
    for i := 0 to |visible|
      invariant Known(rows, visible[..i]) && Gathered(rows, visible, visible[..i], children)
    {
      PrefixKnown(rows, visible, i);
      PrefixKnown(rows, visible, i + 1);
      GatherOne(rows, visible, visible, i, children);
      var row := rows[visible[i]];
      if row.parent.Some? {
        var p := row.parent.value;
        var sofar := if p in children then children[p] else [];
        children := children[p := sofar + [Response(rows, visible, visible[i])]];
      }
    }
    assert visible[..|visible|] == visible;
  }

  lemma NothingGathered(rows: map<int, Category>, among: seq<int>)
    ensures Known(rows, among[..0]) && Gathered(rows, among, among[..0], map[])
  {
  }

  /******* What is listed *******/

  // A tree list read from top to bottom.
  function Preorder(items: seq<Tree>): seq<Public> {
    if items == [] then [] else
    Preorder(items[..|items| - 1]) + [items[|items| - 1].root] + items[|items| - 1].children
  }

  ghost predicate DistinctSlugs(s: seq<Public>) {
    forall i, j :: 0 <= i < j < |s| ==> s[i].slug != s[j].slug
  }

  /******* The check of the browser *******/

  // Roots without a parent, children under their own root.
  ghost predicate Nested(items: seq<Tree>) {
    forall t <- items :: t.root.parentSlug.None? && forall c <- t.children :: c.parentSlug == Some(t.root.slug)
  }

  // No child lies beyond the capacity in reading order.
  ghost predicate ChildrenWithin(items: seq<Tree>) {
    forall i :: 0 <= i < |items| && items[i].children != [] ==>
        |Preorder(items[..i])| + 1 + |items[i].children| <= CAPACITY
  }

  ghost predicate Hierarchy(items: seq<Tree>) {
    Nested(items) && DistinctSlugs(Preorder(items)) && ChildrenWithin(items)
  }

  ghost predicate Accepted(items: seq<Tree>) {
    |items| <= CAPACITY && (forall t <- items :: |t.children| <= CAPACITY) && Hierarchy(items)
  }

  ghost predicate Collected(slugs: set<int>, seen: seq<Public>) {
    && DistinctSlugs(seen)
    && (forall p <- seen :: p.slug in slugs)
    && forall x <- slugs :: exists p <- seen :: p.slug == x
  }

  lemma CollectOne(slugs: set<int>, seen: seq<Public>, p: Public)
    requires Collected(slugs, seen)
    ensures p.slug !in slugs ==> Collected(slugs + {p.slug}, seen + [p])
    ensures p.slug in slugs ==> !DistinctSlugs(seen + [p])
  {
    var more := seen + [p];
    if p.slug in slugs {
      var q :| q in seen && q.slug == p.slug;
      var i :| 0 <= i < |seen| && seen[i] == q;
      assert more[i] == q && more[|seen|] == p;
    } else {
      forall x | x in slugs + {p.slug}
        ensures exists q <- more :: q.slug == x
      {
        if x == p.slug {
          assert p in more;
        } else {
          var q :| q in seen && q.slug == x;
          assert q in more;
        }
      }
      forall i, j | 0 <= i < j < |more|
        ensures more[i].slug != more[j].slug
      {
        assert i < |seen|;
        var q := seen[i];
        assert q in seen;
      }
    }
  }

  lemma PrefixDistinct(a: seq<Public>, b: seq<Public>)
    requires DistinctSlugs(a + b)
    ensures DistinctSlugs(a)
  {
    assert forall i :: 0 <= i < |a| ==> (a + b)[i] == a[i];
  }

  lemma {:induction false} PreorderPrefix(items: seq<Tree>, i: nat)
    requires i <= |items| && DistinctSlugs(Preorder(items))
    ensures DistinctSlugs(Preorder(items[..i]))
    decreases |items|
  {
    if i == |items| {
      assert items[..i] == items;
    } else {
      var front := items[..|items| - 1];
      var last := items[|items| - 1];
      assert Preorder(items) == Preorder(front) + ([last.root] + last.children);
      PrefixDistinct(Preorder(front), [last.root] + last.children);
      PreorderPrefix(front, i);
      assert front[..i] == items[..i];
    }
  }

  lemma PreorderNext(items: seq<Tree>, i: nat)
    requires i < |items|
    ensures items[..i + 1][..i] == items[..i]
    ensures Preorder(items[..i + 1]) == Preorder(items[..i]) + [items[i].root] + items[i].children
  {
    assert items[..i + 1][..i] == items[..i];
  }

  // root.children.every(...)
  method CheckChildren(root: Public, children: seq<Public>, slugs: set<int>, count: nat, ghost seen: seq<Public>)
    returns (ok: bool, grown: set<int>, counted: nat)
    requires Collected(slugs, seen) && count == |seen|
    ensures ok <==>
      && (forall c <- children :: c.parentSlug == Some(root.slug))
      && DistinctSlugs(seen + children)
      && (children != [] ==> |seen| + |children| <= CAPACITY)
    ensures ok ==> Collected(grown, seen + children) && counted == |seen + children|
  {
    grown, counted := slugs, count;
    assert seen + children[..0] == seen;
    for j := 0 to |children|
      invariant forall k :: 0 <= k < j ==> children[k].parentSlug == Some(root.slug)
      invariant Collected(grown, seen + children[..j]) && counted == |seen| + j
      invariant j > 0 ==> counted <= CAPACITY
    {
      hide Collected, DistinctSlugs;
      var child := children[j];
      assert seen + children[..j] + [child] == seen + children[..j + 1];
      assert seen + children == seen + children[..j + 1] + children[j + 1..];
      counted := counted + 1;
      CollectOne(grown, seen + children[..j], child);
      if DistinctSlugs(seen + children) { PrefixDistinct(seen + children[..j + 1], children[j + 1..]); }
      if child.parentSlug != Some(root.slug) || child.slug in grown {
        assert child in children;
        return false, grown, counted;
      }
      grown := grown + {child.slug};
      if counted > CAPACITY {
        return false, grown, counted;
      }
    }
    assert children[..|children|] == children;
    ok := true;
  }

  // One tree, after the given nodes.
  ghost predicate Fits(seen: seq<Public>, t: Tree) {
    && t.root.parentSlug.None? && (forall c <- t.children :: c.parentSlug == Some(t.root.slug))
    && DistinctSlugs(seen + [t.root] + t.children)
    && (t.children != [] ==> |seen| + 1 + |t.children| <= CAPACITY)
  }

  lemma HierarchyFits(items: seq<Tree>, i: nat)
    requires i < |items| && Hierarchy(items)
    ensures Fits(Preorder(items[..i]), items[i])
  {
    assert items[i] in items;
    PreorderPrefix(items, i + 1);
    PreorderNext(items, i);
  }

  lemma HierarchyGrows(items: seq<Tree>, i: nat)
    requires i < |items| && Hierarchy(items[..i]) && Fits(Preorder(items[..i]), items[i])
    ensures Hierarchy(items[..i + 1])
  {
    hide DistinctSlugs;
    var before, after := items[..i], items[..i + 1];
    PreorderNext(items, i);
    assert after == before + [items[i]];
    forall k | 0 <= k < |after| && after[k].children != []
      ensures |Preorder(after[..k])| + 1 + |after[k].children| <= CAPACITY
    {
      assert after[..k] == items[..k];
      if k < i { assert before[k] == after[k] && before[..k] == items[..k]; }
    }
  }

  // One round of the check: the root, then its children.
  method CheckTree(t: Tree, slugs: set<int>, count: nat, ghost seen: seq<Public>)
    returns (ok: bool, grown: set<int>, counted: nat)
    requires Collected(slugs, seen) && count == |seen|
    ensures ok <==> Fits(seen, t)
    ensures ok ==> Collected(grown, seen + [t.root] + t.children) && counted == |seen + [t.root] + t.children|
  {
    hide Collected, DistinctSlugs;
    CollectOne(slugs, seen, t.root);
    if DistinctSlugs(seen + [t.root] + t.children) {
      PrefixDistinct(seen + [t.root], t.children);
    }
    if t.root.parentSlug.Some? || t.root.slug in slugs {
      return false, slugs, count;
    }
    ok, grown, counted := CheckChildren(t.root, t.children, slugs + {t.root.slug}, count + 1, seen + [t.root]);
  }

  /** The browser's check accepts exactly the well-formed two-level lists within the capacity. */
  method CheckHierarchy(items: seq<Tree>) returns (ok: bool)
    ensures ok <==> Accepted(items)
  {
    if |items| > CAPACITY || exists t <- items :: |t.children| > CAPACITY {
      return false;
    }
    var slugs: set<int>, count: nat := {}, 0;
    assert Hierarchy(items[..0]);
    for i := 0 to |items|
      invariant Collected(slugs, Preorder(items[..i])) && count == |Preorder(items[..i])|
      invariant Hierarchy(items[..i])
    {
      hide Collected, Preorder, Hierarchy, Fits;
      PreorderNext(items, i);
      if Hierarchy(items) { HierarchyFits(items, i); }
      var fine, grown, counted := CheckTree(items[i], slugs, count, Preorder(items[..i]));
      if !fine {
        return false;
      }
      HierarchyGrows(items, i);
      slugs, count := grown, counted;
    }
    assert items[..|items|] == items;
    ok := true;
  }

  /******* Nothing missing, nothing twice *******/

  ghost predicate Apart(ids: seq<int>) {
    forall i, j :: 0 <= i < j < |ids| ==> ids[i] != ids[j]
  }

  // The rows behind a tree list, read from top to bottom.
  function Reading(rows: map<int, Category>, ids: seq<int>, roots: seq<int>): (r: seq<int>)
    requires Known(rows, ids) && Known(rows, roots)
    ensures Known(rows, r)
  {
    if roots == [] then [] else
    var front := roots[..|roots| - 1];
    var last := roots[|roots| - 1];
    Reading(rows, ids, front) + [last] + Under(rows, ids, last)
  }

  lemma PreorderAppend(items: seq<Tree>, t: Tree)
    ensures Preorder(items + [t]) == Preorder(items) + [t.root] + t.children
  {
    assert (items + [t])[..|items|] == items;
  }

  lemma ForestedAppend(rows: map<int, Category>, ids: seq<int>, front: seq<int>, last: int)
    requires Known(rows, ids) && Known(rows, front) && last in rows && Known(rows, front + [last])
    ensures Forested(rows, ids, front + [last]) == Forested(rows, ids, front) + [Branch(rows, ids, last)]
  {
    hide Branch;
  }

  lemma ResponsesJoin(rows: map<int, Category>, among: seq<int>, a: seq<int>, b: seq<int>)
    requires Known(rows, a) && Known(rows, b)
    ensures Known(rows, a + b)
    ensures Responses(rows, among, a + b) == Responses(rows, among, a) + Responses(rows, among, b)
  {
    hide Response;
  }

  lemma {:induction false} ReadingIsPreorder(rows: map<int, Category>, ids: seq<int>, roots: seq<int>)
    requires Known(rows, ids) && Known(rows, roots)
    ensures Preorder(Forested(rows, ids, roots)) == Responses(rows, ids, Reading(rows, ids, roots))
  {
    if roots != [] {
      var front := roots[..|roots| - 1];
      var last := roots[|roots| - 1];
      assert roots == front + [last];
      ReadingIsPreorder(rows, ids, front);
      ReadingIsPreorderStep(rows, ids, front, last);
    }
  }

  lemma ReadingIsPreorderStep(rows: map<int, Category>, ids: seq<int>, front: seq<int>, last: int)
    requires Known(rows, ids) && Known(rows, front) && last in rows && Known(rows, front + [last])
    requires Preorder(Forested(rows, ids, front)) == Responses(rows, ids, Reading(rows, ids, front))
    ensures Preorder(Forested(rows, ids, front + [last])) == Responses(rows, ids, Reading(rows, ids, front + [last]))
  {
    hide Under, Response, Preorder, Forested, Reading, Responses, Known;
    var kids := Under(rows, ids, last);
    ReadingStep(rows, ids, front, last);
    ForestedAppend(rows, ids, front, last);
    PreorderAppend(Forested(rows, ids, front), Branch(rows, ids, last));
    NoneKnown(rows);
    ResponsesStep(rows, ids, [], last);
    ResponsesJoin(rows, ids, [] + [last], kids);
    ResponsesJoin(rows, ids, Reading(rows, ids, front), [] + [last] + kids);
  }

  lemma NoneKnown(rows: map<int, Category>)
    ensures Known(rows, [])
  {
  }

  lemma {:induction false} ReadingContains(rows: map<int, Category>, ids: seq<int>, roots: seq<int>, id: int)
    requires Known(rows, ids) && Known(rows, roots)
    ensures id in Reading(rows, ids, roots)
      <==> id in roots || (id in ids && rows[id].parent.Some? && rows[id].parent.value in roots)
  {
    if roots != [] {
      var front := roots[..|roots| - 1];
      var last := roots[|roots| - 1];
      assert roots == front + [last];
      ReadingContains(rows, ids, front, id);
    }
  }

  lemma SortedAppend(rows: map<int, Category>, a: seq<int>, x: int)
    requires Sorted(rows, a) && forall y <- a :: Before(rows, y, x)
    ensures Sorted(rows, a + [x])
  {
    var c := a + [x];
    forall i, j | 0 <= i < j < |c|
      ensures Before(rows, c[i], c[j])
    {
      var y := c[i];
      assert c[i] == a[i] && y in a;
    }
  }

  lemma SortedSplit(rows: map<int, Category>, rest: seq<int>, last: int)
    requires Sorted(rows, rest + [last])
    ensures Sorted(rows, rest) && forall y <- rest :: Before(rows, y, last)
  {
    var ids := rest + [last];
    assert forall i :: 0 <= i < |rest| ==> ids[i] == rest[i];
    forall y | y in rest
      ensures Before(rows, y, last)
    {
      var i :| 0 <= i < |rest| && ids[i] == y;
      assert ids[|rest|] == last;
    }
  }

  lemma {:induction false} UnderSorted(rows: map<int, Category>, ids: seq<int>, p: int)
    requires Known(rows, ids) && Sorted(rows, ids)
    ensures Sorted(rows, Under(rows, ids, p))
  {
    if ids != [] {
      var rest := ids[..|ids| - 1];
      assert ids == rest + [ids[|ids| - 1]];
      SortedSplit(rows, rest, ids[|ids| - 1]);
      UnderSorted(rows, rest, p);
      SortedAppend(rows, Under(rows, rest, p), ids[|ids| - 1]);
    }
  }

  lemma {:induction false} RootsSorted(rows: map<int, Category>, ids: seq<int>)
    requires Known(rows, ids) && Sorted(rows, ids)
    ensures Sorted(rows, RootsOf(rows, ids))
  {
    if ids != [] {
      var rest := ids[..|ids| - 1];
      assert ids == rest + [ids[|ids| - 1]];
      SortedSplit(rows, rest, ids[|ids| - 1]);
      RootsSorted(rows, rest);
      SortedAppend(rows, RootsOf(rows, rest), ids[|ids| - 1]);
    }
  }

  lemma {:induction false} VisibleSorted(rows: map<int, Category>, ids: seq<int>)
    requires Known(rows, ids) && Sorted(rows, ids)
    ensures Known(rows, VisibleRows(rows, ids)) && Sorted(rows, VisibleRows(rows, ids))
  {
    VisibleAreListed(rows, ids);
    if ids != [] {
      var rest := ids[1..];
      VisibleSorted(rows, rest);
      VisibleAreListed(rows, rest);
      var tail, all := VisibleRows(rows, rest), VisibleRows(rows, ids);
      forall y | y in tail
        ensures Before(rows, ids[0], y)
      {
        var i :| 0 <= i < |rest| && rest[i] == y;
        assert ids[i + 1] == y;
      }
      forall i, j | 0 <= i < j < |all|
        ensures Before(rows, all[i], all[j])
      {
        if all != tail {
          var y := all[j];
          assert all[j] == tail[j - 1] && y in tail;
        }
      }
    }
  }

  lemma ConcatApart(a: seq<int>, b: seq<int>)
    requires Apart(a) && Apart(b) && forall x :: x in a ==> x !in b
    ensures Apart(a + b)
  {
    var c := a + b;
    forall i, j | 0 <= i < j < |c|
      ensures c[i] != c[j]
    {
      if i < |a| && |a| <= j {
        var x, y := a[i], b[j - |a|];
        assert x in a && y in b;
      } else if |a| <= i {
        assert c[i] == b[i - |a|] && c[j] == b[j - |a|];
      }
    }
  }

  // The branch of a root shares no row with the branches before it.
  lemma BranchIsNew(rows: map<int, Category>, ids: seq<int>, front: seq<int>, last: int)
    requires Known(rows, ids) && Known(rows, front) && last in rows && last !in front
    requires rows[last].parent.None? && forall r <- front :: rows[r].parent.None?
    ensures forall x :: x in Reading(rows, ids, front) ==> x !in [last] + Under(rows, ids, last)
  {
    forall x | x in Reading(rows, ids, front)
      ensures x !in [last] + Under(rows, ids, last)
    {
      ReadingContains(rows, ids, front, x);
    }
  }

  lemma {:induction false} ReadingApart(rows: map<int, Category>, ids: seq<int>, roots: seq<int>)
    requires Known(rows, ids) && Known(rows, roots) && Sorted(rows, ids) && Sorted(rows, roots)
    requires forall r <- roots :: rows[r].parent.None?
    ensures Apart(Reading(rows, ids, roots))
  {
    if roots != [] {
      var front := roots[..|roots| - 1];
      var last := roots[|roots| - 1];
      assert last in roots && roots == front + [last];
      SortedSplit(rows, front, last);
      ReadingApart(rows, ids, front);
      BranchIsNew(rows, ids, front, last);
      BranchApart(rows, ids, last);
      ReadingStep(rows, ids, front, last);
      ConcatApart(Reading(rows, ids, front), [last] + Under(rows, ids, last));
    }
  }

  lemma ReadingStep(rows: map<int, Category>, ids: seq<int>, front: seq<int>, last: int)
    requires Known(rows, ids) && Known(rows, front) && last in rows
    ensures Known(rows, front + [last])
    ensures Reading(rows, ids, front + [last]) == Reading(rows, ids, front) + ([last] + Under(rows, ids, last))
  {
    hide Under;
    assert (front + [last])[..|front|] == front;
  }

  lemma BranchApart(rows: map<int, Category>, ids: seq<int>, last: int)
    requires Known(rows, ids) && Sorted(rows, ids) && last in rows && rows[last].parent.None?
    ensures Apart([last] + Under(rows, ids, last))
  {
    UnderSorted(rows, ids, last);
    ConcatApart([last], Under(rows, ids, last));
  }

  // What the public list says of a row.
  function Entry(rows: map<int, Category>, id: int): Public
    requires id in rows
  {
    var p := rows[id].parent;
    Public(rows[id].slug, if p.Some? && p.value in rows then Some(rows[p.value].slug) else None)
  }

  // The nodes of a list are the entries of its reading, in order.
  ghost predicate Spells(rows: map<int, Category>, reading: seq<int>, p: seq<Public>) {
    && Known(rows, reading) && |p| == |reading|
    && forall i :: 0 <= i < |p| ==> p[i] == Entry(rows, reading[i])
  }

  // The rows in the reading order of the public list: each active row, once.
  lemma ReadingIsActive(rows: map<int, Category>, ids: seq<int>) returns (reading: seq<int>)
    requires Forest(rows) && IsList(rows, ids) && Known(rows, ids)
    ensures Spells(rows, reading, Preorder(PublicList(rows, ids))) && Apart(reading)
    ensures forall id :: id in reading <==> id in rows && rows[id].active
    ensures |Preorder(PublicList(rows, ids))| == |reading|
  {
    VisibleSorted(rows, ids);
    VisibleAreListed(rows, ids);
    var visible := VisibleRows(rows, ids);
    var roots := RootsOf(rows, visible);
    RootsSorted(rows, visible);
    reading := Reading(rows, visible, roots);
    ReadingApart(rows, visible, roots);
    ReadingIsPreorder(rows, visible, roots);
    forall id
      ensures id in reading <==> id in rows && rows[id].active
    {
      ReadingContains(rows, visible, roots, id);
      if id in rows { assert Placed(rows, id); ActiveIsPublic(rows, id); }
    }
    forall i | 0 <= i < |reading|
      ensures Response(rows, visible, reading[i]) == Entry(rows, reading[i])
    {
      var id := reading[i];
      assert id in reading;
      assert Placed(rows, id);
    }
  }

  lemma BranchSlugs(rows: map<int, Category>, ids: seq<int>, root: int)
    requires root in rows && Known(rows, ids)
    ensures var t, kids := Branch(rows, ids, root), Under(rows, ids, root);
      && t.root.slug == rows[root].slug && |t.children| == |kids|
      && forall k :: 0 <= k < |kids| ==> t.children[k].slug == rows[kids[k]].slug
  {
  }

  lemma ForestIsUnique(rows: map<int, Category>)
    requires Forest(rows)
    ensures Unique(rows)
  {
  }

  lemma NamesOne(rows: map<int, Category>, a: int, b: int)
    requires Unique(rows) && a in rows && b in rows && rows[a].slug == rows[b].slug
    ensures a == b
  {
  }

  // The first row comes first by its sort order, and among equal ones by its slug.
  predicate ComesFirst(rows: map<int, Category>, a: int, b: int)
    requires a in rows && b in rows
  {
    rows[a].order < rows[b].order || (rows[a].order == rows[b].order && rows[a].slug < rows[b].slug)
  }

  /** The roots of the public list are in the order of sort_order and slug. */
  lemma RootsInOrder(rows: map<int, Category>, ids: seq<int>, i: nat, j: nat, a: int, b: int)
    requires Forest(rows) && IsList(rows, ids) && Known(rows, ids)
    requires i < j < |PublicList(rows, ids)| && a in rows && b in rows
    requires PublicList(rows, ids)[i].root.slug == rows[a].slug && PublicList(rows, ids)[j].root.slug == rows[b].slug
    ensures ComesFirst(rows, a, b)
  {
    hide Forest, Branch, VisibleRows, RootsOf, Known;
    VisibleSorted(rows, ids);
    VisibleAreListed(rows, ids);
    var visible := VisibleRows(rows, ids);
    var roots := RootsOf(rows, visible);
    RootsSorted(rows, visible);
    ForestIsUnique(rows);
    BranchSlugs(rows, visible, roots[i]);
    BranchSlugs(rows, visible, roots[j]);
    NamesOne(rows, a, roots[i]);
    NamesOne(rows, b, roots[j]);
  }

  /** So are the children of each root. */
  lemma ChildrenInOrder(rows: map<int, Category>, ids: seq<int>, t: nat, i: nat, j: nat, a: int, b: int)
    requires Forest(rows) && IsList(rows, ids) && Known(rows, ids)
    requires t < |PublicList(rows, ids)| && i < j < |PublicList(rows, ids)[t].children| && a in rows && b in rows
    requires PublicList(rows, ids)[t].children[i].slug == rows[a].slug
    requires PublicList(rows, ids)[t].children[j].slug == rows[b].slug
    ensures ComesFirst(rows, a, b)
  {
    hide Forest, Branch, VisibleRows, RootsOf, Known, Under;
    VisibleSorted(rows, ids);
    VisibleAreListed(rows, ids);
    var visible := VisibleRows(rows, ids);
    var root := RootsOf(rows, visible)[t];
    var kids := Under(rows, visible, root);
    UnderSorted(rows, visible, root);
    ForestIsUnique(rows);
    BranchSlugs(rows, visible, root);
    NamesOne(rows, a, kids[i]);
    NamesOne(rows, b, kids[j]);
  }

  lemma {:induction false} ApartFits(ids: seq<int>, within: set<int>)
    requires Apart(ids) && forall id <- ids :: id in within
    ensures |ids| <= |within|
  {
    if ids != [] {
      var last := ids[|ids| - 1];
      var front := ids[..|ids| - 1];
      assert last in ids && forall x <- front :: x in ids && x != last;
      ApartFits(front, within - {last});
    }
  }

  lemma SpellsDistinct(rows: map<int, Category>, reading: seq<int>, p: seq<Public>)
    requires Unique(rows) && Spells(rows, reading, p) && Apart(reading)
    ensures DistinctSlugs(p)
  {
    forall i, j | 0 <= i < j < |p|
      ensures p[i].slug != p[j].slug
    {
      assert reading[i] != reading[j];
    }
  }

  lemma SpellsEntry(rows: map<int, Category>, reading: seq<int>, p: seq<Public>, id: int)
    requires Unique(rows) && Spells(rows, reading, p) && id in rows
    ensures Entry(rows, id) in p <==> id in reading
  {
    if id in reading {
      var i :| 0 <= i < |reading| && reading[i] == id;
      assert p[i] == Entry(rows, id);
    }
    if Entry(rows, id) in p {
      var i :| 0 <= i < |p| && p[i] == Entry(rows, id);
      var x := reading[i];
      assert x in reading && rows[x].slug == rows[id].slug;
    }
  }

  lemma SpellsOnly(rows: map<int, Category>, reading: seq<int>, p: seq<Public>, e: Public)
    requires Spells(rows, reading, p) && e in p
    ensures exists id <- reading :: id in rows && e == Entry(rows, id)
  {
    var i :| 0 <= i < |p| && p[i] == e;
    var id := reading[i];
    assert id in reading;
  }

  /** The public list names each active category exactly once, under its own parent. */
  lemma ListsEachActiveOnce(rows: map<int, Category>, ids: seq<int>)
    requires Forest(rows) && IsList(rows, ids) && Known(rows, ids)
    ensures var p := Preorder(PublicList(rows, ids));
      && DistinctSlugs(p) && |p| <= CAPACITY
      && (forall id <- rows :: rows[id].active <==> Entry(rows, id) in p)
      && forall e <- p :: exists id <- rows :: rows[id].active && e == Entry(rows, id)
  {
    hide IsList, Known, Spells, DistinctSlugs, Preorder, PublicList, Apart, Unique;
    var p := Preorder(PublicList(rows, ids));
    var reading := ReadingIsActive(rows, ids);
    ApartFits(reading, rows.Keys);
    SpellsDistinct(rows, reading, p);
    forall id | id in rows
      ensures rows[id].active <==> Entry(rows, id) in p
    {
      SpellsEntry(rows, reading, p, id);
    }
    forall e | e in p
      ensures exists id <- rows :: rows[id].active && e == Entry(rows, id)
    {
      SpellsOnly(rows, reading, p, e);
    }
  }

  /** Whatever the catalog publishes passes the browser's check. */
  lemma PublishedIsAccepted(rows: map<int, Category>, ids: seq<int>)
    requires Forest(rows) && IsList(rows, ids) && Known(rows, ids)
    ensures Accepted(PublicList(rows, ids))
  {
    var items := PublicList(rows, ids);
    ListsEachActiveOnce(rows, ids);
    PreorderIsLong(items);
    VisibleAreListed(rows, ids);
    var visible := VisibleRows(rows, ids);
    var roots := RootsOf(rows, visible);
    forall i | 0 <= i < |items|
      ensures items[i].root.parentSlug.None?
      ensures forall c <- items[i].children :: c.parentSlug == Some(items[i].root.slug)
    {
      var r := roots[i];
      assert r in roots && items[i] == Branch(rows, visible, r);
      forall c | c in items[i].children
        ensures c.parentSlug == Some(items[i].root.slug)
      {
        var kids := Under(rows, visible, r);
        var k :| 0 <= k < |kids| && c == Response(rows, visible, kids[k]);
        var kid := kids[k];
        assert kid in kids;
      }
    }
  }

  lemma {:induction false} PreorderIsLong(items: seq<Tree>)
    ensures |items| <= |Preorder(items)|
    ensures forall i :: 0 <= i < |items| ==> |Preorder(items[..i])| + 1 + |items[i].children| <= |Preorder(items)|
  {
    if items != [] {
      var front := items[..|items| - 1];
      PreorderIsLong(front);
      assert forall i :: 0 <= i < |front| ==> front[..i] == items[..i];
    }
  }
}
