/**
 * The ProductTag table as the store holds it: a sequence of rows whose
 * primary keys come from an autoincrement counter. Destroy-by-id and
 * bulk creation are the only changes the routes make to it.
 */
module ProductTagTable {
  import opened Junction

  /** Primary keys strictly increase along the table, as autoincrement hands them out. */
  predicate Increasing(rows: seq<Row>) {
    forall i, j :: 0 <= i < j < |rows| ==> rows[i].id < rows[j].id
  }

  /** Every primary key in `rows` is below `bound`. */
  predicate Below(rows: seq<Row>, bound: int) {
    forall row :: row in rows ==> row.id < bound
  }

  lemma IncreasingUnique(rows: seq<Row>)
    requires Increasing(rows)
    ensures UniqueIds(rows)
  {
    forall r1, r2 | r1 in rows && r2 in rows && r1.id == r2.id ensures r1 == r2 {
      var i :| 0 <= i < |rows| && rows[i] == r1;
      var j :| 0 <= j < |rows| && rows[j] == r2;
      assert !(i < j) && !(j < i);
    }
  }

  lemma {:induction false} RemoveIdsIncreasing(rows: seq<Row>, ids: seq<int>)
    requires Increasing(rows)
    ensures Increasing(RemoveIds(rows, ids))
  {
    if rows != [] {
      var rest := rows[1..];
      assert Increasing(rest);
      RemoveIdsIncreasing(rest, ids);
      var tail := RemoveIds(rest, ids);
      forall row | row in tail ensures rows[0].id < row.id {
        var k :| 0 <= k < |rest| && rest[k] == row;
        assert rows[k + 1] == row;
      }
      var head: seq<Row> := if rows[0].id in ids then [] else [rows[0]];
      assert RemoveIds(rows, ids) == head + tail;
      forall i, j | 0 <= i < j < |head + tail|
        ensures (head + tail)[i].id < (head + tail)[j].id
      {
        if i < |head| {
          assert (head + tail)[j] == tail[j - |head|];
          assert tail[j - |head|] in tail;
        }
      }
    }
  }

  lemma AppendNumberedIncreasing(rows: seq<Row>, links: seq<Link>, from: int)
    requires Increasing(rows) && Below(rows, from)
    ensures Increasing(rows + Numbered(links, from))
    ensures Below(rows + Numbered(links, from), from + |links|)
  {
    var created := Numbered(links, from);
    var all := rows + created;
    forall i, j | 0 <= i < j < |all| ensures all[i].id < all[j].id {
      if j < |rows| {
      } else if i < |rows| {
        assert all[i] in rows;
        assert all[j] == created[j - |rows|];
      } else {
        assert all[i] == created[i - |rows|] && all[j] == created[j - |rows|];
      }
    }
    forall row | row in all ensures row.id < from + |links| {
      if row !in rows {
        var k :| 0 <= k < |created| && created[k] == row;
      }
    }
  }

  class JunctionTable {
    var rows: seq<Row>
    /** The primary key the next created row receives. */
    var nextId: int

    ghost predicate Valid()
      reads this
    {
      1 <= nextId && Increasing(rows) && Below(rows, nextId)
    }

    constructor ()
      ensures Valid() && rows == [] && nextId == 1
    {
      rows := [];
      nextId := 1;
    }

    /** Destroy every row whose primary key is listed in `ids`. */
    method Destroy(ids: seq<int>)
      requires Valid()
      modifies this
      ensures Valid()
      ensures rows == RemoveIds(old(rows), ids) && nextId == old(nextId)
    {
      RemoveIdsIncreasing(rows, ids);
      rows := RemoveIds(rows, ids);
    }

    /** Store one row per link, in order, with fresh consecutive primary keys. */
    method BulkCreate(links: seq<Link>) returns (created: seq<Row>)
      requires Valid()
      modifies this
      ensures Valid()
      ensures created == Numbered(links, old(nextId))
      ensures rows == old(rows) + created && nextId == old(nextId) + |links|
    {
      created := Numbered(links, nextId);
      AppendNumberedIncreasing(rows, links, nextId);
      rows := rows + created;
      nextId := nextId + |links|;
    }

    /**
     * Fetch the rows keyed on `target`, destroy those whose linked id is not
     * requested and bulk-create a row for each requested id not yet linked.
     */
    method Reconcile(side: Side, target: int, requested: seq<int>)
      requires Valid()
      modifies this
      ensures Valid()
      ensures rows == ReconcileRows(side, target, old(rows), old(nextId), requested)
      ensures nextId == old(nextId) + |ToAdd(side, target, Where(side, target, old(rows)), requested)|
      ensures Linked(side, target, rows) == set x | x in requested
      ensures forall row :: row in old(rows) && Key(side, row) != target ==> row in rows
      ensures forall row :: row in rows ==> row in old(rows) || (Key(side, row) == target && old(nextId) <= row.id)
    {
      IncreasingUnique(rows);
      ReconcileLinksRequested(side, target, rows, nextId, requested);
      ReconcileKeepsOthers(side, target, rows, nextId, requested);
      var existing := Where(side, target, rows);
      var toAdd := ToAdd(side, target, existing, requested);
      var toRemove := ToRemove(side, existing, requested);
      Destroy(toRemove);
      var _ := BulkCreate(toAdd);
    }
  }
}
