/**
 * The ProductTag junction table and the diff that reconciles one product's
 * (or one tag's) links with a requested id list.
 *
 * A row links one product to one tag. Product update and Tag update run the
 * same diff with the two columns swapped; `Side` says which column is fixed
 * to the target (`product_id` for a product, `tag_id` for a tag) and the
 * other column holds the linked ids.
 */
module Junction {

  /** A stored ProductTag row: its primary key and the two foreign keys. */
  datatype Row = Row(id: int, productId: int, tagId: int)

  /** A row handed to bulk creation: the store assigns its primary key. */
  datatype Link = Link(productId: int, tagId: int)

  /** What a create does with the id list of its request body. */
  datatype CreateOutcome =
    | Paired(productTags: seq<Row>)  // the rows bulk creation stored
    | EmptyList                      // the list was empty: the new entity alone is returned
    | ListMissing                    // reading the length of an absent list fails the request

  /** Which column the reconciliation is keyed on. */
  datatype Side = ByProduct | ByTag

  /** The column fixed to the target. */
  function Key(side: Side, row: Row): int {
    match side
    case ByProduct => row.productId
    case ByTag => row.tagId
  }

  /** The column holding the linked id. */
  function Other(side: Side, row: Row): int {
    match side
    case ByProduct => row.tagId
    case ByTag => row.productId
  }

  function LinkKey(side: Side, link: Link): int {
    match side
    case ByProduct => link.productId
    case ByTag => link.tagId
  }

  function LinkOther(side: Side, link: Link): int {
    match side
    case ByProduct => link.tagId
    case ByTag => link.productId
  }

  /** The new row pairing `target` with `other`. */
  function Pair(side: Side, target: int, other: int): (link: Link)
    ensures LinkKey(side, link) == target && LinkOther(side, link) == other
  {
    match side
    case ByProduct => Link(target, other)
    case ByTag => Link(other, target)
  }

  /** The foreign keys of a stored row. */
  function LinkOf(row: Row): Link {
    Link(row.productId, row.tagId)
  }

  /** Primary keys identify rows. */
  predicate UniqueIds(rows: seq<Row>) {
    forall r1, r2 :: r1 in rows && r2 in rows && r1.id == r2.id ==> r1 == r2
  }

  /** The set of ids linked to `target` in `rows`. */
  function Linked(side: Side, target: int, rows: seq<Row>): set<int> {
    set row | row in rows && Key(side, row) == target :: Other(side, row)
  }

  // ---------------------------------------------------------------------
  // Queries and primitive table operations, as values
  // ---------------------------------------------------------------------

  /** The rows whose fixed column equals `target`, in table order (findAll with a where clause). */
  function Where(side: Side, target: int, rows: seq<Row>): (found: seq<Row>)
    ensures |found| <= |rows|
    ensures forall row :: row in found <==> row in rows && Key(side, row) == target
  {
    if rows == [] then []
    else (if Key(side, rows[0]) == target then [rows[0]] else []) + Where(side, target, rows[1..])
  }

  /** The linked ids of `rows`, one per row, in order: E in the diff. */
  function OtherIds(side: Side, rows: seq<Row>): (ids: seq<int>)
    ensures |ids| == |rows|
    ensures forall i :: 0 <= i < |rows| ==> ids[i] == Other(side, rows[i])
  {
    if rows == [] then [] else [Other(side, rows[0])] + OtherIds(side, rows[1..])
  }

  /** The elements of `xs` that `excluded` does not contain, in order. */
  function NotIn(xs: seq<int>, excluded: seq<int>): (kept: seq<int>)
    ensures |kept| <= |xs|
    ensures forall x :: x in kept <==> x in xs && x !in excluded
  {
    if xs == [] then []
    else (if xs[0] in excluded then [] else [xs[0]]) + NotIn(xs[1..], excluded)
  }

  /** One new row per id, in order, each paired with `target`. */
  function Pairings(side: Side, target: int, ids: seq<int>): (links: seq<Link>)
    ensures |links| == |ids|
    ensures forall i :: 0 <= i < |ids| ==> LinkKey(side, links[i]) == target && LinkOther(side, links[i]) == ids[i]
  {
    if ids == [] then [] else [Pair(side, target, ids[0])] + Pairings(side, target, ids[1..])
  }

  /** The rows left by a destroy whose where clause lists the primary keys `ids`. */
  function RemoveIds(rows: seq<Row>, ids: seq<int>): (kept: seq<Row>)
    ensures |kept| <= |rows|
    ensures forall row :: row in kept <==> row in rows && row.id !in ids
  {
    if rows == [] then []
    else (if rows[0].id in ids then [] else [rows[0]]) + RemoveIds(rows[1..], ids)
  }

  /** The rows a bulk creation stores: consecutive primary keys from `from`. */
  function Numbered(links: seq<Link>, from: int): (created: seq<Row>)
    ensures |created| == |links|
    ensures forall i :: 0 <= i < |links| ==> created[i].id == from + i && LinkOf(created[i]) == links[i]
  {
    if links == [] then []
    else [Row(from, links[0].productId, links[0].tagId)] + Numbered(links[1..], from + 1)
  }

  // ---------------------------------------------------------------------
  // The diff
  // ---------------------------------------------------------------------

  /**
   * The rows to add: each requested id that no existing row links,
   * paired with the target.
   */
  function ToAdd(side: Side, target: int, existing: seq<Row>, requested: seq<int>): (added: seq<Link>)
    ensures |added| <= |requested|
    ensures forall link :: link in added ==>
              LinkKey(side, link) == target && LinkOther(side, link) in requested
              && LinkOther(side, link) !in OtherIds(side, existing)
    ensures forall x :: x in requested && x !in OtherIds(side, existing) ==> Pair(side, target, x) in added
  {
    var ids := NotIn(requested, OtherIds(side, existing));
    var links := Pairings(side, target, ids);
    assert forall x :: x in ids ==> Pair(side, target, x) in links by {
      forall x | x in ids ensures Pair(side, target, x) in links {
        var i :| 0 <= i < |ids| && ids[i] == x;
        assert links[i] == Pair(side, target, x);
      }
    }
    links
  }

  /** The primary keys of the existing rows whose linked id is not requested, in row order. */
  function ToRemove(side: Side, existing: seq<Row>, requested: seq<int>): (removed: seq<int>)
    ensures |removed| <= |existing|
    ensures forall id :: id in removed ==>
              exists row :: row in existing && row.id == id && Other(side, row) !in requested
    ensures forall row :: row in existing && Other(side, row) !in requested ==> row.id in removed
  {
    if existing == [] then []
    else (if Other(side, existing[0]) in requested then [] else [existing[0].id])
         + ToRemove(side, existing[1..], requested)
  }

  /** The table after destroying ToRemove and bulk-creating ToAdd for `target`. */
  function ReconcileRows(side: Side, target: int, rows: seq<Row>, nextId: int, requested: seq<int>): (after: seq<Row>)
    ensures |after| <= |rows| + |requested|
  {
    var existing := Where(side, target, rows);
    RemoveIds(rows, ToRemove(side, existing, requested))
    + Numbered(ToAdd(side, target, existing, requested), nextId)
  }

  // ---------------------------------------------------------------------
  // Properties of the diff
  // ---------------------------------------------------------------------

  /** Filtering distributes over concatenation: the kept ids stay in request order. */
  lemma {:induction false} NotInAppend(a: seq<int>, b: seq<int>, excluded: seq<int>)
    ensures NotIn(a + b, excluded) == NotIn(a, excluded) + NotIn(b, excluded)
  {
    if a == [] {
      assert a + b == b;
    } else {
      assert (a + b)[1..] == a[1..] + b;
      NotInAppend(a[1..], b, excluded);
    }
  }

  lemma {:induction false} PairingsAppend(side: Side, target: int, a: seq<int>, b: seq<int>)
    ensures Pairings(side, target, a + b) == Pairings(side, target, a) + Pairings(side, target, b)
  {
    if a == [] {
      assert a + b == b;
    } else {
      assert (a + b)[1..] == a[1..] + b;
      PairingsAppend(side, target, a[1..], b);
    }
  }

  /** The rows to add follow the request order. */
  lemma ToAddAppend(side: Side, target: int, existing: seq<Row>, a: seq<int>, b: seq<int>)
    ensures ToAdd(side, target, existing, a + b)
            == ToAdd(side, target, existing, a) + ToAdd(side, target, existing, b)
  {
    var e := OtherIds(side, existing);
    NotInAppend(a, b, e);
    PairingsAppend(side, target, NotIn(a, e), NotIn(b, e));
  }

  /** A single requested id is added exactly when no existing row links it. */
  lemma ToAddSingle(side: Side, target: int, existing: seq<Row>, x: int)
    ensures ToAdd(side, target, existing, [x])
            == if x in OtherIds(side, existing) then [] else [Pair(side, target, x)]
  {
    var e := OtherIds(side, existing);
    assert [x][1..] == [];
    assert NotIn([x], e) == if x in e then [] else [x];
  }

  /** The ids to remove follow the order of the existing rows. */
  lemma {:induction false} ToRemoveAppend(side: Side, a: seq<Row>, b: seq<Row>, requested: seq<int>)
    ensures ToRemove(side, a + b, requested) == ToRemove(side, a, requested) + ToRemove(side, b, requested)
  {
    if a == [] {
      assert a + b == b;
    } else {
      assert (a + b)[1..] == a[1..] + b;
      ToRemoveAppend(side, a[1..], b, requested);
    }
  }

  /** With unique primary keys, an existing row is removed exactly when its linked id is not requested. */
  lemma RemovedExactly(side: Side, existing: seq<Row>, requested: seq<int>)
    requires UniqueIds(existing)
    ensures forall row :: row in existing ==>
              (row.id in ToRemove(side, existing, requested) <==> Other(side, row) !in requested)
  {
    forall row | row in existing && row.id in ToRemove(side, existing, requested)
      ensures Other(side, row) !in requested
    {
      var w :| w in existing && w.id == row.id && Other(side, w) !in requested;
      assert w == row;
    }
  }

  /**
   * No linked id is both added and removed: added ids lie outside E and are
   * requested; removed rows' ids lie inside E and are not requested.
   */
  lemma AddRemoveDisjoint(side: Side, target: int, existing: seq<Row>, requested: seq<int>)
    requires UniqueIds(existing)
    ensures forall row :: row in existing && row.id in ToRemove(side, existing, requested) ==>
              Other(side, row) in OtherIds(side, existing) && Other(side, row) !in requested
    ensures forall link, row ::
              link in ToAdd(side, target, existing, requested) && row in existing
              && row.id in ToRemove(side, existing, requested) ==>
              LinkOther(side, link) != Other(side, row)
  {
    RemovedExactly(side, existing, requested);
    forall row | row in existing ensures Other(side, row) in OtherIds(side, existing) {
      var i :| 0 <= i < |existing| && existing[i] == row;
      assert OtherIds(side, existing)[i] == Other(side, row);
    }
  }

  /** Reconciling against no existing rows creates exactly the pairings a create makes. */
  lemma {:induction false} ToAddFromNothing(side: Side, target: int, requested: seq<int>)
    ensures ToAdd(side, target, [], requested) == Pairings(side, target, requested)
  {
    NotInNothing(requested);
  }

  lemma {:induction false} NotInNothing(xs: seq<int>)
    ensures NotIn(xs, []) == xs
  {
    if xs != [] {
      NotInNothing(xs[1..]);
    }
  }

  /** Destroying by primary key distributes over concatenation. */
  lemma {:induction false} RemoveIdsAppend(a: seq<Row>, b: seq<Row>, ids: seq<int>)
    ensures RemoveIds(a + b, ids) == RemoveIds(a, ids) + RemoveIds(b, ids)
  {
    if a == [] {
      assert a + b == b;
    } else {
      assert (a + b)[1..] == a[1..] + b;
      RemoveIdsAppend(a[1..], b, ids);
    }
  }

  /** A destroy whose keys hit no row leaves the rows as they were. */
  lemma {:induction false} RemoveIdsMissing(rows: seq<Row>, ids: seq<int>)
    requires forall row :: row in rows ==> row.id !in ids
    ensures RemoveIds(rows, ids) == rows
  {
    if rows != [] {
      assert rows[0] in rows;
      assert forall row :: row in rows[1..] ==> row in rows;
      RemoveIdsMissing(rows[1..], ids);
    }
  }

  /** After reconciliation the ids linked to the target are exactly the requested ids. */
  lemma ReconcileLinksRequested(side: Side, target: int, rows: seq<Row>, nextId: int, requested: seq<int>)
    requires UniqueIds(rows)
    ensures Linked(side, target, ReconcileRows(side, target, rows, nextId, requested)) == set x | x in requested
  {
    LinkedWithinRequested(side, target, rows, nextId, requested);
    RequestedWithinLinked(side, target, rows, nextId, requested);
  }

  lemma LinkedWithinRequested(side: Side, target: int, rows: seq<Row>, nextId: int, requested: seq<int>)
    ensures forall x :: x in Linked(side, target, ReconcileRows(side, target, rows, nextId, requested)) ==>
              x in requested
  {
    var existing := Where(side, target, rows);
    var added := ToAdd(side, target, existing, requested);
    var kept := RemoveIds(rows, ToRemove(side, existing, requested));
    var created := Numbered(added, nextId);
    var after := kept + created;
    assert after == ReconcileRows(side, target, rows, nextId, requested);
    forall x | x in Linked(side, target, after) ensures x in requested {
      var row :| row in after && Key(side, row) == target && Other(side, row) == x;
      if row in kept {
        assert row in existing;
      } else {
        var i :| 0 <= i < |created| && created[i] == row;
        assert LinkOf(row) == added[i];
        assert added[i] in added;
      }
    }
  }

  lemma RequestedWithinLinked(side: Side, target: int, rows: seq<Row>, nextId: int, requested: seq<int>)
    requires UniqueIds(rows)
    ensures forall x :: x in requested ==>
              x in Linked(side, target, ReconcileRows(side, target, rows, nextId, requested))
  {
    forall x | x in requested
      ensures x in Linked(side, target, ReconcileRows(side, target, rows, nextId, requested))
    {
      if x in OtherIds(side, Where(side, target, rows)) {
        RequestedLinkedKept(side, target, rows, nextId, requested, x);
      } else {
        RequestedLinkedAdded(side, target, rows, nextId, requested, x);
      }
    }
  }

  /** A requested id some existing row already links stays linked through that row. */
  lemma RequestedLinkedKept(side: Side, target: int, rows: seq<Row>, nextId: int, requested: seq<int>, x: int)
    requires UniqueIds(rows)
    requires x in requested && x in OtherIds(side, Where(side, target, rows))
    ensures x in Linked(side, target, ReconcileRows(side, target, rows, nextId, requested))
  {
    var existing := Where(side, target, rows);
    var removed := ToRemove(side, existing, requested);
    var e := OtherIds(side, existing);
    var i :| 0 <= i < |e| && e[i] == x;
    var row := existing[i];
    assert row in existing;
    assert row.id !in removed by {
      assert forall w :: w in existing ==> w in rows;
      assert forall w :: w in existing && w.id == row.id ==> w == row;
    }
    assert row in RemoveIds(rows, removed);
  }

  /** A requested id no existing row links is linked by a new row. */
  lemma RequestedLinkedAdded(side: Side, target: int, rows: seq<Row>, nextId: int, requested: seq<int>, x: int)
    requires x in requested && x !in OtherIds(side, Where(side, target, rows))
    ensures x in Linked(side, target, ReconcileRows(side, target, rows, nextId, requested))
  {
    var existing := Where(side, target, rows);
    var added := ToAdd(side, target, existing, requested);
    var created := Numbered(added, nextId);
    var link := Pair(side, target, x);
    assert link in added;
    var i :| 0 <= i < |added| && added[i] == link;
    assert LinkOf(created[i]) == link;
    assert created[i] in ReconcileRows(side, target, rows, nextId, requested);
  }

  /**
   * Reconciliation only destroys rows keyed on the target: every row of
   * another target survives unchanged, every surviving row keeps its id, and
   * every new row is keyed on the target with a primary key from `nextId` on.
   */
  lemma ReconcileKeepsOthers(side: Side, target: int, rows: seq<Row>, nextId: int, requested: seq<int>)
    requires UniqueIds(rows)
    ensures forall row :: row in rows && Key(side, row) != target ==>
              row in ReconcileRows(side, target, rows, nextId, requested)
    ensures forall row :: row in ReconcileRows(side, target, rows, nextId, requested) ==>
              row in rows || (Key(side, row) == target && nextId <= row.id)
  {
    var existing := Where(side, target, rows);
    var removed := ToRemove(side, existing, requested);
    var added := ToAdd(side, target, existing, requested);
    var created := Numbered(added, nextId);
    forall row | row in rows && Key(side, row) != target
      ensures row in RemoveIds(rows, removed)
    {
      assert forall w :: w in existing ==> w in rows && w.id != row.id;
    }
    forall row | row in created ensures Key(side, row) == target && nextId <= row.id {
      var i :| 0 <= i < |created| && created[i] == row;
      assert added[i] in added;
    }
  }

  /** The new rows' primary keys are at least `nextId`, so the destroy cannot hit them. */
  lemma NumberedIdsFrom(links: seq<Link>, from: int)
    ensures forall row :: row in Numbered(links, from) ==> from <= row.id
  {
    var created := Numbered(links, from);
    forall row | row in created ensures from <= row.id {
      var i :| 0 <= i < |created| && created[i] == row;
    }
  }

  /**
   * The destroy and the bulk creation may run in either order: creating
   * first and destroying afterwards leaves the same table.
   */
  lemma ReconcileOrderIrrelevant(side: Side, target: int, rows: seq<Row>, nextId: int, requested: seq<int>)
    requires forall row :: row in rows ==> row.id < nextId
    ensures var existing := Where(side, target, rows);
            RemoveIds(rows + Numbered(ToAdd(side, target, existing, requested), nextId),
                      ToRemove(side, existing, requested))
            == ReconcileRows(side, target, rows, nextId, requested)
  {
    var existing := Where(side, target, rows);
    var removed := ToRemove(side, existing, requested);
    var created := Numbered(ToAdd(side, target, existing, requested), nextId);
    RemoveIdsAppend(rows, created, removed);
    NumberedIdsFrom(ToAdd(side, target, existing, requested), nextId);
    forall row | row in created ensures row.id !in removed {
      assert forall w :: w in existing ==> w in rows && w.id != row.id;
    }
    RemoveIdsMissing(created, removed);
  }

  lemma {:induction false} NotInCovered(xs: seq<int>, excluded: seq<int>)
    requires forall i :: 0 <= i < |xs| ==> xs[i] in excluded
    ensures NotIn(xs, excluded) == []
  {
    if xs != [] {
      assert xs[0] in excluded;
      NotInCovered(xs[1..], excluded);
    }
  }

  lemma {:induction false} ToRemoveCovered(side: Side, existing: seq<Row>, requested: seq<int>)
    requires forall row :: row in existing ==> Other(side, row) in requested
    ensures ToRemove(side, existing, requested) == []
  {
    if existing != [] {
      assert existing[0] in existing;
      assert forall row :: row in existing[1..] ==> row in existing;
      ToRemoveCovered(side, existing[1..], requested);
    }
  }

  /**
   * Re-issuing the same request after a reconciliation adds nothing,
   * removes nothing and leaves the table as it is.
   */
  lemma ReconcileIdempotent(side: Side, target: int, rows: seq<Row>, nextId: int, requested: seq<int>)
    requires UniqueIds(rows)
    ensures var after := ReconcileRows(side, target, rows, nextId, requested);
            var again := Where(side, target, after);
            && ToAdd(side, target, again, requested) == []
            && ToRemove(side, again, requested) == []
            && forall nextId' :: ReconcileRows(side, target, after, nextId', requested) == after
  {
    var after := ReconcileRows(side, target, rows, nextId, requested);
    var again := Where(side, target, after);
    ReconcileLinksRequested(side, target, rows, nextId, requested);
    var e := OtherIds(side, again);
    forall x | x in requested ensures x in e {
      assert x in Linked(side, target, after);
      var row :| row in after && Key(side, row) == target && Other(side, row) == x;
      assert row in again;
      var i :| 0 <= i < |again| && again[i] == row;
      assert e[i] == x;
    }
    NotInCovered(requested, e);
    assert ToAdd(side, target, again, requested) == Pairings(side, target, []);
    forall row | row in again ensures Other(side, row) in requested {
      assert Other(side, row) in Linked(side, target, after);
    }
    ToRemoveCovered(side, again, requested);
    forall nextId': int ensures ReconcileRows(side, target, after, nextId', requested) == after {
      RemoveIdsMissing(after, []);
      assert Numbered([], nextId') == [];
      assert after + [] == after;
    }
  }

  /**
   * The rows a create stores for a target that no row links yet link it
   * to exactly the listed ids.
   */
  lemma CreateLinksExactly(side: Side, target: int, rows: seq<Row>, nextId: int, ids: seq<int>)
    requires forall row :: row in rows ==> Key(side, row) != target
    ensures Linked(side, target, rows + Numbered(Pairings(side, target, ids), nextId)) == set x | x in ids
  {
    var links := Pairings(side, target, ids);
    var created := Numbered(links, nextId);
    var after := rows + created;
    forall x | x in Linked(side, target, after) ensures x in ids {
      var row :| row in after && Key(side, row) == target && Other(side, row) == x;
      assert row !in rows;
      var i :| 0 <= i < |created| && created[i] == row;
      assert LinkOf(row) == links[i];
    }
    forall x | x in ids ensures x in Linked(side, target, after) {
      var i :| 0 <= i < |ids| && ids[i] == x;
      assert LinkOf(created[i]) == links[i];
      assert created[i] in after;
    }
  }

  /**
   * A product linked to tags 1, 2 and 3 and updated with tags [2, 3, 4]
   * loses exactly the row linking tag 1 and gains exactly a row linking tag 4.
   */
  lemma ReconcileExample()
    ensures var existing := [Row(10, 7, 1), Row(11, 7, 2), Row(12, 7, 3)];
            && ToRemove(ByProduct, existing, [2, 3, 4]) == [10]
            && ToAdd(ByProduct, 7, existing, [2, 3, 4]) == [Link(7, 4)]
  {
    var existing := [Row(10, 7, 1), Row(11, 7, 2), Row(12, 7, 3)];
    assert OtherIds(ByProduct, existing) == [1, 2, 3];
    assert NotIn([2, 3, 4], [1, 2, 3]) == [4] by {
      assert [2, 3, 4][1..] == [3, 4] && [3, 4][1..] == [4] && [4][1..] == [];
    }
    assert existing[1..] == [Row(11, 7, 2), Row(12, 7, 3)];
    assert existing[1..][1..] == [Row(12, 7, 3)];
  }
}
