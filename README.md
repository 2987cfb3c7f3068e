# ProductTag reconciliation in an e-commerce catalog API

The catalog API keeps `Category`, `Product` and `Tag` rows plus a `ProductTag`
junction table. Every `ProductTag` row `{id, product_id, tag_id}` links one
product to one tag (the many-to-many association of `models/index.js`). The
routes do no real computation except for the junction rows:

- **Product create / Tag create** store one junction row per id in the
  request's `tagIds` / `product_ids` list, all paired with the new entity.
- **Product update / Tag update** reconcile the links when the request carries
  a non-empty list. They fetch the rows keyed on the target and compute E, the
  ids those rows link. They add a row for every requested id outside E and
  destroy every fetched row whose linked id is not requested.

The model does this diff once, for both directions. `Junction.Side` selects the
fixed column: `ByProduct` keys on `product_id`, `ByTag` keys on `tag_id`.

- `junction.dfy` (module `Junction`) has the row types and the diff as pure
  functions: `Where` is the fetch, `OtherIds` is E, `ToAdd` and `ToRemove` are
  the two lists. `RemoveIds` and `Numbered` are destroy-by-id and bulk creation
  as values, and `ReconcileRows` is the table after both. The lemmas prove what
  reconciliation achieves.
- `product_tag_table.dfy` (module `ProductTagTable`) is the table as mutable
  state. The class `JunctionTable` holds the rows and the autoincrement
  counter. Its methods are `Destroy`, `BulkCreate` and `Reconcile`. Its
  invariant is that primary keys strictly increase and stay below the counter.
- `product_routes.dfy` and `tag_routes.dfy` hold the junction part of each
  route file: the create pairing with its `.length` guard, and the update guard
  around reconciliation.
- `wrappers.dfy` has `Option`. It models a request field that may be absent.

Ids are unbounded integers. A request list is a `seq<int>`, an absent field is
`None`. A new product's or tag's id is a parameter because another table
assigns it. Duplicate ids are allowed everywhere. The linked-set results are
set equalities, so they hold with duplicates too.

An update with an empty list leaves the links as they are. The guard at
`routes/api/product-routes.js:125` and `routes/api/tag-routes.js:103` skips
reconciliation, and `ProductRoutes.Update` and `TagRoutes.Update` leave the
table unchanged. Called directly with `[]`, `Junction.ReconcileRows` would
remove every link of the target: by `Junction.ReconcileLinksRequested` the
linked set becomes empty.

## Model

| member | source | states |
|---|---|---|
| `Junction.Where` | routes/api/product-routes.js:126-128 | the fetched rows are exactly the table's rows whose `product_id` (or `tag_id`) is the target |
| `Junction.OtherIds` | routes/api/product-routes.js:130 | E holds the linked id of each fetched row, one per row, in row order |
| `Junction.NotIn` | routes/api/product-routes.js:131-132 | the filter keeps exactly the requested ids that E does not contain |
| `Junction.NotInAppend` | routes/api/product-routes.js:131-132 | the filter distributes over concatenation, so the kept ids stay in request order |
| `Junction.Pair` | routes/api/tag-routes.js:112-117 | a new row has the target in the fixed column and the requested id in the other one |
| `Junction.Pairings` | routes/api/product-routes.js:95-100 | the create mapping gives one row per listed id, in list order, with the target in the fixed column |
| `Junction.PairingsAppend` | routes/api/tag-routes.js:74-79 | the create mapping distributes over concatenation of the id list |
| `Junction.ToAdd` | routes/api/product-routes.js:131-138 | every added row is keyed on the target and links a requested id outside E; every requested id outside E gets a row |
| `Junction.ToAddAppend` | routes/api/product-routes.js:131-138 | the rows to add follow request order |
| `Junction.ToAddSingle` | routes/api/tag-routes.js:110-117 | one requested id gets a row exactly when E does not contain it |
| `Junction.ToRemove` | routes/api/product-routes.js:141-143 | every removed id is the primary key of a fetched row whose linked id is not requested; every such row's id is removed |
| `Junction.ToRemoveAppend` | routes/api/product-routes.js:141-143 | the ids to remove follow the order of the fetched rows |
| `Junction.RemovedExactly` | routes/api/tag-routes.js:119-122 | with unique primary keys, a fetched row is removed if and only if its linked id is not requested |
| `Junction.AddRemoveDisjoint` | routes/api/product-routes.js:130-143 | added ids are requested and lie outside E; removed rows' ids lie inside E and are not requested; so no id is both added and removed |
| `Junction.ToAddFromNothing` | routes/api/tag-routes.js:73-80 | the update diff against no existing rows is exactly the create mapping |
| `Junction.RemoveIds` | routes/api/product-routes.js:147 | destroy by primary key keeps exactly the rows whose id is not listed |
| `Junction.RemoveIdsAppend` | routes/api/tag-routes.js:126-130 | destroy by primary key acts row by row, so it distributes over concatenation |
| `Junction.Numbered` | routes/api/product-routes.js:148 | bulk creation stores the given rows in order with consecutive fresh primary keys |
| `Junction.ReconcileRows` | routes/api/product-routes.js:146-149 | the table after destroying the removed ids and bulk-creating the added rows; it grows by at most the length of the request |
| `Junction.ReconcileLinksRequested` | routes/api/product-routes.js:126-149 | after destroying the removed ids and creating the added rows, the ids linked to the target are exactly the requested ids |
| `Junction.ReconcileKeepsOthers` | routes/api/tag-routes.js:104-132 | rows keyed on another target survive unchanged; every row afterwards is an old row with its old id, or a new row keyed on the target with a fresh id |
| `Junction.ReconcileOrderIrrelevant` | routes/api/product-routes.js:146-149 | running the bulk creation before the destroy leaves the same table, so the unordered pair of calls has one outcome |
| `Junction.ReconcileIdempotent` | routes/api/product-routes.js:131-143 | reconciling again with the same list adds nothing, removes nothing and leaves the table unchanged |
| `Junction.CreateLinksExactly` | routes/api/product-routes.js:94-101 | after a create for a target that no existing row is keyed on, the new entity is linked to exactly the listed ids |
| `Junction.ReconcileExample` | routes/api/product-routes.js:130-143 | a product linked to tags 1, 2, 3 and updated with [2, 3, 4] loses the row for tag 1 and gains one for tag 4 |
| `ProductTagTable.JunctionTable.Destroy` | routes/api/product-routes.js:147 | the table becomes the old rows without the listed primary keys; the counter is unchanged |
| `ProductTagTable.JunctionTable.BulkCreate` | routes/api/product-routes.js:148 | the new rows are appended with consecutive ids from the counter, which advances by their number |
| `ProductTagTable.JunctionTable.Reconcile` | routes/api/product-routes.js:126-149 | fetch, diff, destroy, create: the table becomes `ReconcileRows` and the counter advances by the number of rows added; the target's links equal the requested set, other targets' rows survive |
| `ProductRoutes.Create` | routes/api/product-routes.js:94-104 | an absent `tagIds` fails and an empty one creates nothing; otherwise one row per tag id, in order, keyed on the new product, is appended and the counter advances by the list's length |
| `ProductRoutes.Update` | routes/api/product-routes.js:125-151 | an absent or empty `tagIds` changes nothing; otherwise the product's tags become exactly the requested ones and other products' rows survive |
| `TagRoutes.Create` | routes/api/tag-routes.js:73-83 | an absent `product_ids` fails and an empty one creates nothing; otherwise one row per product id, in order, keyed on the new tag, is appended and the counter advances by the list's length |
| `TagRoutes.Update` | routes/api/tag-routes.js:103-134 | an absent or empty `product_ids` changes nothing; otherwise the tag's products become exactly the requested ones and other tags' rows survive |

## Left out

- HTTP routing, status codes and response bodies are not modelled. This includes the second response a create attempts when its list is empty. `Junction.CreateOutcome` only records which branch was taken.
- The failure outcome of a create with an absent list is the same for both routes. Product create answers 400 and Tag create answers 500, and both have already stored the product or tag row.
- The `Product`, `Tag` and `Category` tables and their ORM calls (find, create, update, destroy, eager loading, projections) are foreign library code. `routes/api/category-routes.js` has no junction logic. The id of a newly created entity is an input.
- The destroy and the bulk creation run concurrently, and the response does not wait for them. The model runs them one after the other. `Junction.ReconcileOrderIrrelevant` shows the other order gives the same table. Partial application and interleaving with other requests are not modelled.
- JavaScript types are not modelled. All ids are integers here. In the source, `includes` compares strictly against the ids of the fetched rows. So a request body carrying string ids (`"1"` against a fetched `1`) would see no match, and the id would be both removed and re-added. The route parameter only feeds the `where` clause and the fixed column of new rows. A non-array truthy list is not modelled either.
- A store error inside a destroy or bulk creation, surfacing as a rejected promise, is not modelled. Foreign-key checks are not modelled either: any integer may be linked.
- The delete handlers issue no `ProductTag` destroy. Whatever the store's foreign-key actions do on delete is not modelled, and the model has no delete operation.
- A failed `Product.create` / `Tag.create` or `Product.update` / `Tag.update` skips all junction work: the error is caught at `routes/api/product-routes.js:107-110` and `155-157` and at `routes/api/tag-routes.js:87-89` and `137-139`. The model's `Create` and `Update` start after that call has succeeded.
