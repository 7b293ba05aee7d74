# Product store: a Dafny model of the product CRUD and import views

This project models the product catalogue backend of a small Django REST
service. It models one table of `Product` rows and the views that read and
write it:

- `CreateUpdateDeleteProduct`: create, partial update and single delete.
- `DeleteBulkProduct`: delete by a list of ids.
- `ProductImportView`: import from an outside catalogue.
- `ProductViewSet`: list with search and rating order, and retrieve.

The ORM is abstracted as an immutable keyed store, `Db(rows: map<int, Product>, nextId)`.
Every write view is a pure function from the store and the request to a
`Step`, which pairs the new store with an `Outcome` (`Ok(value)` or
`Err(error)`). `List` returns the listed rows and `Retrieve` returns an
`Outcome`.
The auto-increment primary key is the counter `nextId`. It starts at 1 and
only grows, as an `AutoField` does on SQLite, where Django declares the key
`AUTOINCREMENT`.

The invariant the views exist to keep is that no two rows have titles equal
ignoring case. `Store.Consistent` states it, together with "every row sits
under its own, counter-issued id". In the model, where the serializer's
whitespace trimming is left out (see below), create, update, delete and bulk
delete preserve it. Import as written does not: its filter compares each
descriptor with the stored titles only, never with the other descriptors of
the same batch. `ProductImportView.ImportConsistentIff` states the exact
condition under which import keeps the invariant. A counterexample shows
the gap, and a deduplicating import is proved to close it.

Files and modules, following the source:

| file | module | models |
|---|---|---|
| `results.dfy` | `Results` | `Option`, the error taxonomy, `Outcome` |
| `text.dfy` | `Text` | ASCII case folding, substring search, decimal rendering of ids |
| `store.dfy` | `Store` | `main/models.py`: the row, the table, its invariants, `__str__` |
| `requests.dfy` | `Requests` | request payloads, serializer field checks, the `iexact` duplicate lookup |
| `crud.dfy` | `CreateUpdateDeleteProduct` | `post`, `put`, `delete` of that view |
| `bulk.dfy` | `DeleteBulkProduct` | its `delete` |
| `import.dfy` | `ProductImportView` | its `post`, the batch insert, and the corrected import |
| `listing.dfy` | `ProductViewSet` | `get_queryset` ordering, the title search filter, list and retrieve |
| `service.dfy` | `Service` | all write views applied to a stream of requests |

Outcomes map to HTTP answers as follows:

- `MissingIdentifier`, `DuplicateTitle`, `ValidationFailed`, `InvalidInput` and `UpstreamUnavailable` map to 400.
- `NotFound` maps to 404.
- `IntegrityError` is the database's unique-index violation. The views do not catch it, so it becomes a server error.

The `title` column is declared `unique=True` (main/models.py:7), so the
database rejects exactly equal titles. For that reason a batch import
with two identical titles fails as a whole with `IntegrityError`.

Case folding is ASCII only. That is what SQLite's `LIKE` does, and Django
compiles `iexact` and `icontains` to `LIKE` on that engine.

## Model

| member | source | states |
|---|---|---|
| `Store.EmptyDb` | main/models.py:5-13 | a freshly created, empty table satisfies the store invariant |
| `Store.IgnoringCaseImpliesExact` | main/models.py:7 | the views' case-insensitive title uniqueness implies the column's exact-match `unique=True` constraint |
| `Store.Display` | main/models.py:15-16 | the string form starts with `Id: `, ends with the title, and has exactly the length of the labels, the id digits and the title |
| `Store.ReadUnsignedOfDigits` | main/models.py:16 | supporting lemma for `DisplayRoundTrip`: a run of digits followed by the separator text reads back as the number those digits denote, with everything after the separator as the title |
| `Store.ReadIdAndTitleRoundTrip` | main/models.py:16 | supporting lemma for `DisplayRoundTrip`: the rendered id, negative or not, followed by the separator and a title reads back as that id and that title |
| `Store.DisplayRoundTrip` | main/models.py:15-16 | the string form of a product determines it: parsing it back yields the same id and the same title |
| `Text.DecimalRoundTrip` | main/models.py:16 | the decimal digits that `str()` renders for an id read back as that id |
| `Text.IsInfixIffOccurs` | main/views.py:40-41 | the title search's substring test succeeds exactly when the term occurs at some index of the title |
| `CreateUpdateDeleteProduct.Create` | main/views.py:89-99 | the duplicate error is returned if and only if a stored title equals the new one ignoring case; validation runs only after that check; any error leaves the store unchanged; success inserts exactly one row, under a fresh id, carrying the payload, fitting the column limits, with every old row kept |
| `CreateUpdateDeleteProduct.CreatePreservesConsistency` | main/views.py:91-98 | create keeps titles pairwise distinct ignoring case, and keeps every row under its own id |
| `CreateUpdateDeleteProduct.Patch` | main/views.py:128-130 | a partial update writes every supplied field, keeps every field the payload leaves out, and keeps the id |
| `CreateUpdateDeleteProduct.PatchCompleteIsNew` | main/views.py:128-130 | a payload that supplies every column replaces the row entirely, giving the row create would build under the same id |
| `CreateUpdateDeleteProduct.PatchIdempotent` | main/views.py:128-130 | applying the same partial update twice gives the same row as applying it once |
| `CreateUpdateDeleteProduct.PatchEmptyIsIdentity` | main/views.py:128-130 | a payload that supplies no field leaves the row as it was |
| `CreateUpdateDeleteProduct.Update` | main/views.py:117-132 | a missing id fails first; the duplicate error happens exactly when another row, other than the given id, has the title ignoring case, and it comes before the not-found check; validation is last; the update succeeds exactly when the id is given, the title does not conflict, the row exists and the supplied fields are valid; errors change nothing; success rewrites only that row, only in its supplied fields |
| `CreateUpdateDeleteProduct.UpdateOwnTitleAnyCase` | main/views.py:123-124 | re-saving a row with its own title in any letter case is not a conflict and succeeds when the fields are valid |
| `CreateUpdateDeleteProduct.UpdatePreservesConsistency` | main/views.py:121-131 | update keeps titles pairwise distinct ignoring case |
| `CreateUpdateDeleteProduct.Delete` | main/views.py:148-153 | a missing id is refused, an unknown id gives not-found, both without change; otherwise exactly that row is removed and nothing else changes |
| `CreateUpdateDeleteProduct.DeletePreservesConsistency` | main/views.py:151-152 | delete keeps the store invariant |
| `DeleteBulkProduct.BulkDelete` | main/views.py:170-176 | an absent, non-list or empty `product_ids` is refused without change; otherwise the remaining keys are exactly the old keys minus the listed ids, with their rows untouched |
| `DeleteBulkProduct.BulkDeleteIdempotent` | main/views.py:175 | repeating a bulk delete changes nothing further |
| `DeleteBulkProduct.BulkDeleteIgnoresUnknownIds` | main/views.py:175 | ids that name no row can be added to the list without changing the result |
| `DeleteBulkProduct.BulkDeletePreservesConsistency` | main/views.py:175 | bulk delete keeps the store invariant |
| `ProductImportView.FreshDescriptors` | main/views.py:201-215 | a descriptor is kept, as many times as it was fetched, exactly when no stored title equals its title ignoring case |
| `ProductImportView.FreshFromEmptyStore` | main/views.py:201-204 | against an empty table, the duplicate filter keeps every fetched descriptor, in fetched order |
| `ProductImportView.NewRows` | main/views.py:205-217 | the inserted rows take consecutive new ids in batch order, each built from its descriptor |
| `ProductImportView.Commit` | main/views.py:216-218 | the batch insert fails as a whole with the unique-index error, leaving the store as it was, when two batch titles are exactly equal or a batch title equals a stored one exactly; otherwise it adds exactly the new rows, keeps the old ones and counts the batch |
| `ProductImportView.Import` | main/views.py:193-220 | a failed fetch is an error; every error leaves the store as it was; a fetched list succeeds, reporting the number of kept descriptors, exactly when no two kept titles are exactly equal, and otherwise ends in the integrity error; zero kept gives zero and no change |
| `ProductImportView.CommitConsistentIff` | main/views.py:216-217 | inserting titles the store does not hold keeps the invariant if and only if the batch has no two titles equal ignoring case |
| `ProductImportView.ImportConsistentIff` | main/views.py:201-217 | a successful import keeps the invariant if and only if the kept descriptors are pairwise distinct ignoring case |
| `ProductImportView.ImportBatchCaseDuplicates` | main/views.py:201-218 | fetching "Shoe" and "SHOE" into an empty store imports both and breaks the invariant |
| `ProductImportView.ImportBatchExactDuplicatesFail` | main/views.py:201-217 | fetching "Shoe" twice into an empty store passes the filter twice and ends in the unique-index error, with the store unchanged |
| `ProductImportView.Deduplicate` | main/views.py:186-187 | the corrected filter keeps only titles that are new to the store and pairwise distinct ignoring case, and keeps only fetched descriptors |
| `ProductImportView.DeduplicateDropsOnlyDuplicates` | main/views.py:186-187 | every descriptor the corrected filter drops has its title, ignoring case, in the store or among the kept ones |
| `ProductImportView.ImportDeduplicated` | main/views.py:193-220 | the corrected import fails only when the fetch fails; it counts the kept descriptors, and it changes nothing when none is kept |
| `ProductImportView.ImportDeduplicatedPreservesConsistency` | main/views.py:186-187 | the corrected import always keeps the store invariant |
| `ProductViewSet.InsertRanked` | main/views.py:43-45 | inserting into a rating-ordered sequence keeps it ordered and adds exactly that one element |
| `ProductViewSet.VisitCounts` | main/views.py:40-45 | supporting lemma for `List`: adding a matching row whose key was not yet visited lists it once and leaves every earlier row listed once |
| `ProductViewSet.VisitExtendsListing` | main/views.py:40-45 | supporting lemma for `List`: visiting one more key keeps the listing exact: only matching stored rows, each matching row with a visited key exactly once |
| `ProductViewSet.List` | main/views.py:40-45 | the result is a listing (`IsListing`): every stored row that matches every search term ignoring case, each exactly once, each under its own key, and nothing else, in non-increasing `rating_rate` order |
| `ProductViewSet.Retrieve` | main/views.py:63-64 | retrieve returns the stored row exactly when the id exists and the row passes the search filter, and not-found otherwise |
| `ProductViewSet.RetrieveAgreesWithList` | main/views.py:40-45 | retrieve and list use the same filtered queryset: an id can be retrieved exactly when a row with that id is in the listing, and the retrieved row is that listed row |
| `Service.Serve` | main/urls.py:11-13 | each write request goes to the view it is routed to, import included; no request moves the id counter back, so ids are never reused |
| `Service.ServeConsistentIff` | main/views.py:81-220 | on a consistent store, a request keeps the invariant exactly when it is not an import whose kept titles differ exactly but not ignoring case |
| `Service.ServeImportBreaksConsistency` | main/views.py:193-220 | importing "Shoe" and "SHOE" into an empty table is such a request, and the service leaves two titles equal ignoring case |
| `Service.ServeAllPreservesConsistency` | main/views.py:81-220 | a stream of requests in which no import brings in case-only duplicates keeps the invariant |
| `Service.ServeKeyedById` | main/models.py:6 | every write request, the as-written import included, keeps each row under its own auto-increment key, so the read views apply to the store it leaves |
| `Service.ServeAllKeyedById` | main/models.py:6 | any stream of write requests keeps each row under its own auto-increment key |
| `Service.ServeCorrected` | main/views.py:186-187 | the corrected service serves every request other than import exactly as the routed views do, and never moves the id counter back |
| `Service.ServeCorrectedPreservesConsistency` | main/views.py:186-187 | with the deduplicating import, every write request keeps the invariant |
| `Service.ServeAllCorrectedPreservesConsistency` | main/views.py:186-187 | with the deduplicating import, any stream of write requests keeps the invariant |
| `Service.FromEmptyAlwaysConsistent` | main/models.py:7 | from an empty table, no request stream of the corrected service yields titles equal ignoring case, nor exactly equal titles |

## Left out

- The HTTP fetch of the import (`requests.get` and its status check) is network I/O. Its result is the input `Fetch`: either failed or a sequence of descriptors. A descriptor missing a key, and a body that is not a list of objects, are not modelled.
- Serializer validation is library behaviour. The payload arrives already typed, so the coercion of raw JSON values is not modelled. The model checks: every column is required on create; supplied text fields are non-empty; title and category are at most 255 characters; the image is at most 200 characters. URL syntax is the parameter `isUrl`. The range validators on `rating_count` and the rejection of non-finite floats are not modelled.
- The serializer trims surrounding whitespace from text fields before saving, but the duplicate check sees the untrimmed title. This trimming is not modelled. With it, a title that differs from a stored one only by case and surrounding spaces would pass both checks.
- A `product_id` query parameter that is not a number is not modelled; the views would raise a server error on it. The id arrives as `Option<int>`, where `None` stands for absent or empty.
- Import does not validate descriptors, so column lengths on imported rows are left to the database engine. The model therefore claims the length limits only for rows written by create and update.
- The derived price strings of the read serializer (main/serializers.py:18-23) are left out: they involve float multiplication, rounding and formatting. `price` and `rating_rate` are reals, and only `rating_rate` is compared.
- Pagination is left out: the pagination class is not part of this model.
- The search filter's splitting of the `search` parameter into terms (on whitespace and commas) is library behaviour. The model receives the terms already split, and a row must match every term.
- Unicode case folding is left out: folding is ASCII only, as on SQLite. On PostgreSQL, `UPPER()` would also fold non-ASCII letters.
- Bulk delete receives its ids as integers. Django coerces each element of `product_id__in`: a numeric string such as "3" deletes row 3, and a non-numeric element raises a server error. This coercion is not modelled.
- The database engine is taken to be SQLite; the project settings are not part of this model. Three behaviours rest on that: the `AUTOINCREMENT` counter never reuses ids, `iexact` and `icontains` fold ASCII letters only, and a failed insert does not use up ids. On PostgreSQL a failed batch insert would still advance the id sequence.
- The check-then-insert race between concurrent requests is left out: the model is sequential.
- The Swagger decorators, URL routing and HTTP status plumbing are framework glue. The migration file duplicates `main/models.py`.
- ProductViewSet.List: the source orders by `rating_rate` only and leaves ties to the database. The model breaks ties by ascending id. That is one of the orders the source allows, and the contract also states the bare non-increasing rating order.
- ProductImportView.FreshDescriptors: states which descriptors are kept and how many times, not that they keep their fetched order; that order decides only which new id each row gets.

## Findings

| source | as written | input that shows it | evidently intended | confidence | as-written member | corrected member |
|---|---|---|---|---|---|---|
| main/views.py:201-217 | each fetched descriptor is checked against the stored titles only, then all survivors are inserted together | empty store, fetched titles "Shoe" and "SHOE": both are imported, and the store holds two titles equal ignoring case | the view's own description promises to add only non-duplicate products by a case-insensitive title check, so a descriptor whose title matches one already kept in the same batch should be skipped too | not executed; high | `ProductImportView.ImportBatchCaseDuplicates` | `ProductImportView.ImportDeduplicated` |
| main/views.py:201-217 | the same filter lets two exactly equal fetched titles through, and the insert hits the `unique=True` index | empty store, fetched title "Shoe" twice: the whole import ends in an uncaught integrity error | the repeated descriptor should be skipped and the rest imported | not executed; high | `ProductImportView.ImportBatchExactDuplicatesFail` | `ProductImportView.ImportDeduplicated` |

The write views as routed (`Service.Serve`) use the import as written. `Service.ServeCorrected` is the same service with the corrected import.
