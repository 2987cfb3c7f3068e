/**
 * The junction-table side of the Product routes: POST pairs a new product
 * with the listed tags, PUT reconciles an existing product's tags with the
 * requested list.
 */
module ProductRoutes {
  import opened Wrappers
  import opened Junction
  import opened ProductTagTable

  /**
   * After the product row exists with id `productId`, store one ProductTag
   * row per listed tag id. The list is required: an absent `tagIds` fails.
   */
  method Create(table: JunctionTable, productId: int, tagIds: Option<seq<int>>) returns (outcome: CreateOutcome)
    requires table.Valid()
    modifies table
    ensures table.Valid()
    ensures tagIds.None? ==> outcome == ListMissing
    ensures tagIds == Some([]) ==> outcome == EmptyList
    ensures outcome.Paired? <==> tagIds.Some? && tagIds.value != []
    ensures !outcome.Paired? ==> table.rows == old(table.rows) && table.nextId == old(table.nextId)
    ensures outcome.Paired? ==>
              && table.rows == old(table.rows) + outcome.productTags
              && table.nextId == old(table.nextId) + |tagIds.value|
              && |outcome.productTags| == |tagIds.value|
              && (forall i :: 0 <= i < |tagIds.value| ==>
                    && outcome.productTags[i].productId == productId
                    && outcome.productTags[i].tagId == tagIds.value[i]
                    && outcome.productTags[i].id == old(table.nextId) + i)
  {
    if tagIds.None? {
      return ListMissing;
    }
    var ids := tagIds.value;
    if |ids| > 0 {
      var links := Pairings(ByProduct, productId, ids);
      var created := table.BulkCreate(links);
      outcome := Paired(created);
    } else {
      outcome := EmptyList;
    }
  }

  /**
   * After the product's own fields are updated, reconcile its tags with a
   * present, non-empty `tagIds`. An absent or empty list leaves every link
   * as it was.
   */
  method Update(table: JunctionTable, productId: int, tagIds: Option<seq<int>>)
    requires table.Valid()
    modifies table
    ensures table.Valid()
    ensures tagIds.None? || tagIds.value == [] ==>
              table.rows == old(table.rows) && table.nextId == old(table.nextId)
    ensures tagIds.Some? && tagIds.value != [] ==>
              && table.rows == ReconcileRows(ByProduct, productId, old(table.rows), old(table.nextId), tagIds.value)
              && table.nextId == old(table.nextId) + |ToAdd(ByProduct, productId, Where(ByProduct, productId, old(table.rows)), tagIds.value)|
              && Linked(ByProduct, productId, table.rows) == set t | t in tagIds.value
    ensures forall row :: row in old(table.rows) && row.productId != productId ==> row in table.rows
    ensures forall row :: row in table.rows ==>
              row in old(table.rows) || (row.productId == productId && old(table.nextId) <= row.id)
  {
    if tagIds.Some? && |tagIds.value| > 0 {
      table.Reconcile(ByProduct, productId, tagIds.value);
    }
  }
}
