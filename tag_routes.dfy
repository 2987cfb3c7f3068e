/**
 * The junction-table side of the Tag routes: POST pairs a new tag
 * with the listed products, PUT reconciles an existing tag's products with the
 * requested list.
 */
module TagRoutes {
  import opened Wrappers
  import opened Junction
  import opened ProductTagTable

  /**
   * After the tag row exists with id `tagId`, store one ProductTag
   * row per listed product id. The list is required: an absent `product_ids` fails.
   */
  method Create(table: JunctionTable, tagId: int, productIds: Option<seq<int>>) returns (outcome: CreateOutcome)
    requires table.Valid()
    modifies table
    ensures table.Valid()
    ensures productIds.None? ==> outcome == ListMissing
    ensures productIds == Some([]) ==> outcome == EmptyList
    ensures outcome.Paired? <==> productIds.Some? && productIds.value != []
    ensures !outcome.Paired? ==> table.rows == old(table.rows) && table.nextId == old(table.nextId)
    ensures outcome.Paired? ==>
              && table.rows == old(table.rows) + outcome.productTags
              && table.nextId == old(table.nextId) + |productIds.value|
              && |outcome.productTags| == |productIds.value|
              && (forall i :: 0 <= i < |productIds.value| ==>
                    && outcome.productTags[i].tagId == tagId
                    && outcome.productTags[i].productId == productIds.value[i]
                    && outcome.productTags[i].id == old(table.nextId) + i)
  {
    if productIds.None? {
      return ListMissing;
    }
    var ids := productIds.value;
    if |ids| > 0 {
      var links := Pairings(ByTag, tagId, ids);
      var created := table.BulkCreate(links);
      outcome := Paired(created);
    } else {
      outcome := EmptyList;
    }
  }

  /**
   * After the tag's own fields are updated, reconcile its products with a
   * present, non-empty `product_ids`. An absent or empty list leaves every link
   * as it was.
   */
  method Update(table: JunctionTable, tagId: int, productIds: Option<seq<int>>)
    requires table.Valid()
    modifies table
    ensures table.Valid()
    ensures productIds.None? || productIds.value == [] ==>
              table.rows == old(table.rows) && table.nextId == old(table.nextId)
    ensures productIds.Some? && productIds.value != [] ==>
              && table.rows == ReconcileRows(ByTag, tagId, old(table.rows), old(table.nextId), productIds.value)
              && table.nextId == old(table.nextId) + |ToAdd(ByTag, tagId, Where(ByTag, tagId, old(table.rows)), productIds.value)|
              && Linked(ByTag, tagId, table.rows) == set p | p in productIds.value
    ensures forall row :: row in old(table.rows) && row.tagId != tagId ==> row in table.rows
    ensures forall row :: row in table.rows ==>
              row in old(table.rows) || (row.tagId == tagId && old(table.nextId) <= row.id)
  {
    if productIds.Some? && |productIds.value| > 0 {
      table.Reconcile(ByTag, tagId, productIds.value);
    }
  }
}
