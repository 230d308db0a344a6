/**
 The category catalog (services/catalog_service.py, models/catalog.py) and the check the
 browser makes of it (frontend/src/features/categories/schemas.ts). Slugs are numbered in
 their collation order; names and descriptions play no part.
 */
module Catalog {
  import opened Common

  const CAPACITY: nat := 500

  // A row without its id, which is the key of the table.
  datatype Category = Category(slug: int, parent: Option<int>, parentLevel: Option<int>, level: int, active: bool,
                               order: int)

  datatype Verdict = Done | NotFound | Refused
  datatype Outcome = Outcome(verdict: Verdict, rows: map<int, Category>)

  datatype Change =
    | Create(id: int, slug: int, under: Option<int>, order: int)
    | Update(slug: int, reparent: Option<Option<int>>, reorder: Option<int>)
    | SetActive(slug: int, active: bool)

  /******* The rules *******/

  ghost predicate Unique(rows: map<int, Category>) {
    forall a <- rows, b <- rows :: rows[a].slug == rows[b].slug ==> a == b
  }

  // Two levels, and nothing active below something inactive.
  ghost predicate Placed(rows: map<int, Category>, id: int)
    requires id in rows
  {
    var row := rows[id];
    match row.parent
    case None => row.level == 1 && row.parentLevel.None?
    case Some(p) =>
      && row.level == 2 && row.parentLevel == Some(1)
      && p in rows && rows[p].parent.None? && rows[p].level == 1
      && (row.active ==> rows[p].active)
  }

  ghost predicate Forest(rows: map<int, Category>) {
    && |rows| <= CAPACITY && Unique(rows)
    && forall id <- rows :: Placed(rows, id)
  }

  ghost predicate Names(rows: map<int, Category>, slug: int, id: int) {
    id in rows && rows[id].slug == slug
  }

  // SELECT ... WHERE slug = slug
  ghost function Get(rows: map<int, Category>, slug: int): (id: Option<int>)
    ensures id.Some? ==> Names(rows, slug, id.value)
    ensures id.None? ==> forall a :: !Names(rows, slug, a)
  {
    if exists a :: Names(rows, slug, a) then
      var a :| Names(rows, slug, a);
      Some(a)
    else None
  }

  predicate HasChildren(rows: map<int, Category>, id: int, activeOnly: bool) {
    exists c <- rows :: rows[c].parent == Some(id) && (activeOnly ==> rows[c].active)
  }

  datatype Parent = Parent(verdict: Verdict, id: Option<int>)

  // validate_parent; `child` is absent while the row is being created.
  ghost function ValidateParent(rows: map<int, Category>, slug: int, child: Option<int>, under: Option<int>): Parent {
    match under
    case None => Parent(Done, None)
    case Some(parentSlug) =>
      if slug == parentSlug then Parent(Refused, None) else
      match Get(rows, parentSlug)
      case None => Parent(NotFound, None)
      case Some(p) =>
        if !rows[p].active || rows[p].level != 1 then Parent(Refused, None)
        else if child.Some? && HasChildren(rows, child.value, false) then Parent(Refused, None)
        else Parent(Done, Some(p))
  }

  function Assigned(row: Category, parent: Option<int>): Category {
    row.(parent := parent,
         parentLevel := if parent.Some? then Some(1) else None,
         level := if parent.Some? then 2 else 1)
  }

  ghost function Step(rows: map<int, Category>, change: Change): Outcome {
    match change
    case Create(id, slug, under, order) =>
      if Get(rows, slug).Some? || |rows| >= CAPACITY then Outcome(Refused, rows) else
      var parent := ValidateParent(rows, slug, None, under);
      if parent.verdict != Done then Outcome(parent.verdict, rows) else
      var row := Assigned(Category(slug, None, None, 1, true, order), parent.id);
      Outcome(Done, rows[id := row])
    case Update(slug, reparent, reorder) =>
      (match Get(rows, slug)
       case None => Outcome(NotFound, rows)
       case Some(id) =>
         var parent := if reparent.Some? then ValidateParent(rows, slug, Some(id), reparent.value)
                       else Parent(Done, rows[id].parent);
         if parent.verdict != Done then Outcome(parent.verdict, rows) else
         var moved := if reparent.Some? then Assigned(rows[id], parent.id) else rows[id];
         Outcome(Done, rows[id := moved.(order := if reorder.Some? then reorder.value else moved.order)]))
    case SetActive(slug, active) =>
      match Get(rows, slug)
      case None => Outcome(NotFound, rows)
      case Some(id) =>
        var p := rows[id].parent;
        if active && p.Some? && p.value in rows && !rows[p.value].active then Outcome(Refused, rows)
        else if !active && HasChildren(rows, id, true) then Outcome(Refused, rows)
        else Outcome(Done, rows[id := rows[id].(active := active)])
  }

  // A new row's id is not in use.
  ghost predicate Possible(rows: map<int, Category>, change: Change) {
    change.Create? ==> change.id !in rows
  }

  ghost predicate AllPossible(rows: map<int, Category>, changes: seq<Change>)
    decreases |changes|
  {
    changes != [] ==> Possible(rows, changes[0]) && AllPossible(Step(rows, changes[0]).rows, changes[1..])
  }

  ghost function Run(rows: map<int, Category>, changes: seq<Change>): map<int, Category>
    decreases |changes|
  {
    if changes == [] then rows else Run(Step(rows, changes[0]).rows, changes[1..])
  }

  lemma InsertKeepsForest(rows: map<int, Category>, id: int, row: Category)
    requires Forest(rows) && id !in rows && |rows| < CAPACITY
    requires forall a <- rows :: rows[a].slug != row.slug
    requires Placed(rows[id := row], id)
    ensures Forest(rows[id := row])
  {
    var after := rows[id := row];
    assert after.Keys == rows.Keys + {id};
    assert |after| == |after.Keys| && |rows| == |rows.Keys|;
    forall a | a in rows && a != id ensures Placed(after, a) {
      assert Placed(rows, a);
    }
  }

  lemma CreateKeepsForest(rows: map<int, Category>, change: Change)
    requires Forest(rows) && change.Create? && Possible(rows, change)
    ensures Forest(Step(rows, change).rows)
  {
    hide Forest;
    var after := Step(rows, change).rows;
    if after != rows {
      var row := after[change.id];
      assert forall a <- rows :: !Names(rows, change.slug, a);
      assert Placed(after, change.id) by {
        if row.parent.Some? { RootIsPlaced(rows, row.parent.value); }
      }
      InsertKeepsForest(rows, change.id, row);
    }
  }

  lemma RootIsPlaced(rows: map<int, Category>, p: int)
    requires Forest(rows) && p in rows && rows[p].level == 1
    ensures rows[p].parent.None?
  {
    assert Placed(rows, p);
  }

  lemma UpdateKeepsForest(rows: map<int, Category>, change: Change)
    requires Forest(rows) && change.Update?
    ensures Forest(Step(rows, change).rows)
  {
    var after := Step(rows, change).rows;
    if after != rows {
      var id := Get(rows, change.slug).value;
      assert after.Keys == rows.Keys;
      assert forall a <- rows :: rows[a].slug == after[a].slug;
      forall a | a in after ensures Placed(after, a) {
        assert Placed(rows, a) && Placed(rows, id);
      }
    }
  }

  lemma SetActiveKeepsForest(rows: map<int, Category>, change: Change)
    requires Forest(rows) && change.SetActive?
    ensures Forest(Step(rows, change).rows)
  {
    var after := Step(rows, change).rows;
    if after != rows {
      var id := Get(rows, change.slug).value;
      assert after.Keys == rows.Keys;
      assert forall a <- rows :: rows[a].slug == after[a].slug;
      forall a | a in after ensures Placed(after, a) {
        assert Placed(rows, a) && Placed(rows, id);
      }
    }
  }

  lemma {:induction false} RunKeepsForest(rows: map<int, Category>, changes: seq<Change>)
    requires Forest(rows) && AllPossible(rows, changes)
    ensures Forest(Run(rows, changes))
    decreases |changes|
  {
    if changes != [] {
      StepKeepsForest(rows, changes[0]);
      RunKeepsForest(Step(rows, changes[0]).rows, changes[1..]);
    }
  }

  lemma StepKeepsForest(rows: map<int, Category>, change: Change)
    requires Forest(rows) && Possible(rows, change)
    ensures Forest(Step(rows, change).rows)
  {
    match change
    case Create(_, _, _, _) => CreateKeepsForest(rows, change);
    case Update(_, _, _) => UpdateKeepsForest(rows, change);
    case SetActive(_, _) => SetActiveKeepsForest(rows, change);
  }

  /** An active category stays active through any change but its own deactivation, which needs
      it to have no active children. */
  lemma ActiveAfter(rows: map<int, Category>, change: Change, id: int)
    requires Forest(rows) && Possible(rows, change) && id in rows && rows[id].active
    ensures var after := Step(rows, change).rows;
      && id in after
      && (after[id].active <==> !(change == Change.SetActive(rows[id].slug, false) && !HasChildren(rows, id, true)))
  {
    assert Names(rows, rows[id].slug, id);
    var found := Get(rows, rows[id].slug);
    assert found == Some(id);
  }

  lemma NamedIsFound(rows: map<int, Category>, slug: int, id: int)
    requires Unique(rows) && Names(rows, slug, id)
    ensures Get(rows, slug) == Some(id)
  {
  }

  // The row may be placed below the row of that slug, or at the root.
  ghost predicate MayBeUnder(rows: map<int, Category>, under: Option<int>, p: Option<int>) {
    if under.None? then p.None?
    else p.Some? && Names(rows, under.value, p.value) && rows[p.value].active && rows[p.value].parent.None?
  }

  // Nothing but the row of this id differs.
  ghost predicate OnlyChanged(before: map<int, Category>, after: map<int, Category>, id: int) {
    && after.Keys == before.Keys + {id}
    && forall a <- before :: a != id ==> after[a] == before[a]
  }

  /** A row is activated exactly below an active parent or at the root, and deactivated exactly
      without an active child; then nothing but its flag is changed, and else nothing. */
  lemma ActivationExactly(rows: map<int, Category>, slug: int, active: bool, id: int)
    requires Forest(rows) && Names(rows, slug, id)
    ensures var o := Step(rows, Change.SetActive(slug, active));
      && o.verdict == (
        if active && rows[id].parent.Some? && !rows[rows[id].parent.value].active then Refused
        else if !active && exists c <- rows :: rows[c].parent == Some(id) && rows[c].active then Refused
        else Done)
      && o.rows == if o.verdict == Done then rows[id := rows[id].(active := active)] else rows
  {
    NamedIsFound(rows, slug, id);
    assert Placed(rows, id);
  }

  /** A row takes the parent and the order it is given, and keeps what it is not given. It is refused
      exactly for a parent that is no other active root, or while it has children itself. */
  lemma UpdateExactly(rows: map<int, Category>, slug: int, reparent: Option<Option<int>>, reorder: Option<int>, id: int)
    requires Forest(rows) && Names(rows, slug, id)
    ensures var o, row := Step(rows, Change.Update(slug, reparent, reorder)), rows[id];
      && (o.verdict == Done <==>
          || reparent.None? || reparent.value.None?
          || ((exists p: int :: p != id && MayBeUnder(rows, reparent.value, Some(p)))
              && forall c <- rows :: rows[c].parent != Some(id)))
      && (o.verdict == Done ==>
          && OnlyChanged(rows, o.rows, id)
          && o.rows[id].slug == slug && o.rows[id].active == row.active
          && o.rows[id].order == (if reorder.Some? then reorder.value else row.order)
          && (reparent.None? ==> o.rows[id].parent == row.parent)
          && (reparent.Some? ==> MayBeUnder(rows, reparent.value, o.rows[id].parent)))
      && (o.verdict != Done ==> o.rows == rows)
  {
    NamedIsFound(rows, slug, id);
    if reparent.Some? && reparent.value.Some? {
      var found := Get(rows, reparent.value.value);
      if found.Some? {
        assert Placed(rows, found.value);
        NamedIsFound(rows, reparent.value.value, found.value);
      }
      forall p: int | MayBeUnder(rows, reparent.value, Some(p))
        ensures found == Some(p)
      {
        NamedIsFound(rows, reparent.value.value, p);
      }
      if found.Some? && found.value != id && MayBeUnder(rows, reparent.value, found) {
        assert exists p: int :: p != id && MayBeUnder(rows, reparent.value, Some(p));
      }
    }
  }

  /** A row is created exactly under a new slug, within the capacity of 500, at the root or below an
      active root; it is active, with the order it is given. */
  lemma CreationExactly(rows: map<int, Category>, id: int, slug: int, under: Option<int>, order: int)
    requires Forest(rows) && id !in rows
    ensures var o := Step(rows, Change.Create(id, slug, under, order));
      && (o.verdict == Done <==>
          && (forall a <- rows :: rows[a].slug != slug) && |rows| < 500
          && (under.None? || exists p: int :: MayBeUnder(rows, under, Some(p))))
      && (o.verdict == Done ==>
          && OnlyChanged(rows, o.rows, id) && o.rows[id].slug == slug && o.rows[id].active && o.rows[id].order == order
          && MayBeUnder(rows, under, o.rows[id].parent))
      && (o.verdict != Done ==> o.rows == rows)
  {
    assert Get(rows, slug).None? <==> forall a <- rows :: rows[a].slug != slug by {
      assert forall a <- rows :: Names(rows, slug, a) <==> rows[a].slug == slug;
    }
    if under.Some? {
      var found := Get(rows, under.value);
      if found.Some? {
        assert Placed(rows, found.value);
        assert under.value == slug ==> Get(rows, slug).Some?;
      }
      forall p: int | MayBeUnder(rows, under, Some(p))
        ensures found == Some(p)
      {
        NamedIsFound(rows, under.value, p);
      }
      if found.Some? && MayBeUnder(rows, under, found) {
        assert exists p: int :: MayBeUnder(rows, under, Some(p));
      }
    }
  }

  /** From the empty catalog, every run of changes keeps the two-level forest and its capacity. */
  lemma CatalogIsForest(changes: seq<Change>)
    requires AllPossible(map[], changes)
    ensures Forest(Run(map[], changes))
  {
    RunKeepsForest(map[], changes);
  }

  class CategoryService {
    var rows: map<int, Category>

    constructor ()
      ensures rows == map[] && Forest(rows)
    {
      rows := map[];
    }

    method Find(slug: int) returns (id: Option<int>)
      requires Unique(rows)
      ensures id == Get(rows, slug)
    {
      if a :| a in rows.Keys && rows[a].slug == slug {
        assert Names(rows, slug, a);
        return Some(a);
      }
      return None;
    }

    method CheckParent(slug: int, child: Option<int>, under: Option<int>) returns (parent: Parent)
      requires Unique(rows)
      ensures parent == ValidateParent(rows, slug, child, under)
    {
      if under.None? {
        return Parent(Done, None);
      }
      if slug == under.value {
        return Parent(Refused, None);
      }
      var p := Find(under.value);
      if p.None? {
        return Parent(NotFound, None);
      }
      if !rows[p.value].active || rows[p.value].level != 1 {
        return Parent(Refused, None);
      }
      if child.Some? && HasChildren(rows, child.value, false) {
        return Parent(Refused, None);
      }
      return Parent(Done, p);
    }

    method Create(id: int, slug: int, under: Option<int>, order: int) returns (verdict: Verdict)
      requires Forest(rows) && id !in rows
      modifies this
      ensures Forest(rows) && Outcome(verdict, rows) == Step(old(rows), Change.Create(id, slug, under, order))
    {
      CreateKeepsForest(rows, Change.Create(id, slug, under, order));
      var taken := Find(slug);
      if taken.Some? || |rows| >= CAPACITY {
        return Refused;
      }
      var parent := CheckParent(slug, None, under);
      if parent.verdict != Done {
        return parent.verdict;
      }
      rows := rows[id := Assigned(Category(slug, None, None, 1, true, order), parent.id)];
      return Done;
    }

    method Update(slug: int, reparent: Option<Option<int>>, reorder: Option<int>) returns (verdict: Verdict)
      requires Forest(rows)
      modifies this
      ensures Forest(rows) && Outcome(verdict, rows) == Step(old(rows), Change.Update(slug, reparent, reorder))
    {
      UpdateKeepsForest(rows, Change.Update(slug, reparent, reorder));
      var found := Find(slug);
      if found.None? {
        return NotFound;
      }
      var row := rows[found.value];
      if reparent.Some? {
        var parent := CheckParent(slug, found, reparent.value);
        if parent.verdict != Done {
          return parent.verdict;
        }
        row := Assigned(row, parent.id);
      }
      if reorder.Some? {
        row := row.(order := reorder.value);
      }
      rows := rows[found.value := row];
      return Done;
    }

    method SetActive(slug: int, active: bool) returns (verdict: Verdict)
      requires Forest(rows)
      modifies this
      ensures Forest(rows) && Outcome(verdict, rows) == Step(old(rows), Change.SetActive(slug, active))
    {
      SetActiveKeepsForest(rows, Change.SetActive(slug, active));
      var found := Find(slug);
      if found.None? {
        return NotFound;
      }
      var row := rows[found.value];
      if active && row.parent.Some? && row.parent.value in rows && !rows[row.parent.value].active {
        return Refused;
      }
      if !active && HasChildren(rows, found.value, true) {
        return Refused;
      }
      rows := rows[found.value := row.(active := active)];
      return Done;
    }
  }
}
