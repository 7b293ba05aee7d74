/** The write endpoints taken together: a request stream applied to the
    store one request at a time. `Serve` routes each request to the view
    that handles it; `ServeCorrected` is the same service with the
    deduplicating import in place of the import view. */
module Service {
  import opened Results
  import opened Store
  import opened Requests
  import opened CreateUpdateDeleteProduct
  import opened DeleteBulkProduct
  import opened ProductImportView

  /** One write request, as routed to its view. */
  datatype Request =
    | CreateRequest(data: Payload)
    | UpdateRequest(updateId: Option<int>, patch: Payload)
    | DeleteRequest(deleteId: Option<int>)
    | BulkDeleteRequest(field: IdsField)
    | ImportRequest(fetch: Fetch)

  /** The store after one request. The counter never goes back, so no id is
      ever handed out twice. */
  function Serve(db: Db, req: Request, isUrl: string -> bool): (r: Db)
    ensures db.nextId <= r.nextId
  {
    match req
    case CreateRequest(data) => Create(db, data, isUrl).db
    case UpdateRequest(id, patch) => Update(db, id, patch, isUrl).db
    case DeleteRequest(id) => Delete(db, id).db
    case BulkDeleteRequest(field) => BulkDelete(db, field).db
    case ImportRequest(fetch) => Import(db, fetch).db
  }

  /** The one request that passes every check and still breaks the
      invariant: an import whose kept descriptors differ exactly but not
      ignoring case. */
  predicate ImportsCaseDuplicates(db: Db, req: Request) {
    && req.ImportRequest?
    && req.fetch.Fetched?
    && var kept := FreshDescriptors(db.rows, req.fetch.items);
       DistinctTitles(kept) && !DistinctTitlesIgnoringCase(kept)
  }

  /** A request keeps a consistent store consistent exactly when it is not
      an import of case-only duplicates. */
  lemma ServeConsistentIff(db: Db, req: Request, isUrl: string -> bool)
    requires Consistent(db)
    ensures Consistent(Serve(db, req, isUrl)) <==> !ImportsCaseDuplicates(db, req)
  {
    match req
    case CreateRequest(data) => CreatePreservesConsistency(db, data, isUrl);
    case UpdateRequest(id, patch) => UpdatePreservesConsistency(db, id, patch, isUrl);
    case DeleteRequest(id) => DeletePreservesConsistency(db, id);
    case BulkDeleteRequest(field) => BulkDeletePreservesConsistency(db, field);
    case ImportRequest(fetch) =>
      if fetch.Fetched? && DistinctTitles(FreshDescriptors(db.rows, fetch.items)) {
        ImportConsistentIff(db, fetch);
      }
  }

  /** At the service level: importing "Shoe" and "SHOE" into an empty table
      is such a request, and it leaves two titles equal ignoring case. */
  lemma ServeImportBreaksConsistency(isUrl: string -> bool)
    ensures var req := ImportRequest(Fetched([Titled("Shoe"), Titled("SHOE")]));
      ImportsCaseDuplicates(EmptyDb(), req) && !Consistent(Serve(EmptyDb(), req, isUrl))
  {
    CaseOnlyPair();
    ServeConsistentIff(EmptyDb(), ImportRequest(Fetched([Titled("Shoe"), Titled("SHOE")])), isUrl);
  }

  /** The store after a stream of requests, first to last. */
  function ServeAll(db: Db, reqs: seq<Request>, isUrl: string -> bool): (r: Db)
    ensures db.nextId <= r.nextId
    decreases |reqs|
  {
    if |reqs| == 0 then db else ServeAll(Serve(db, reqs[0], isUrl), reqs[1..], isUrl)
  }

  /** No request of the stream, at the store it meets, imports case-only
      duplicates. */
  predicate NoCaseDuplicateImports(db: Db, reqs: seq<Request>, isUrl: string -> bool)
    decreases |reqs|
  {
    |reqs| == 0
    || (!ImportsCaseDuplicates(db, reqs[0])
        && NoCaseDuplicateImports(Serve(db, reqs[0], isUrl), reqs[1..], isUrl))
  }

  /** A stream that never imports case-only duplicates keeps a consistent
      store consistent. */
  lemma {:induction false} ServeAllPreservesConsistency(db: Db, reqs: seq<Request>, isUrl: string -> bool)
    requires Consistent(db)
    requires NoCaseDuplicateImports(db, reqs, isUrl)
    ensures Consistent(ServeAll(db, reqs, isUrl))
    decreases |reqs|
  {
    if |reqs| > 0 {
      ServeConsistentIff(db, reqs[0], isUrl);
      ServeAllPreservesConsistency(Serve(db, reqs[0], isUrl), reqs[1..], isUrl);
    }
  }

  /** Every request keeps each row under its own, counter-issued key, so
      the read views apply to whatever store the write views leave, the
      inconsistent ones included. */
  lemma ServeKeyedById(db: Db, req: Request, isUrl: string -> bool)
    requires KeyedById(db)
    ensures KeyedById(Serve(db, req, isUrl))
  {
    if req.ImportRequest? && req.fetch.Fetched? {
      var kept := FreshDescriptors(db.rows, req.fetch.items);
      FreshBatchMissesStore(db.rows, kept);
      if |kept| > 0 && DistinctTitles(kept) {
        CommitKeyedById(db, kept);
      }
    }
  }

  lemma {:induction false} ServeAllKeyedById(db: Db, reqs: seq<Request>, isUrl: string -> bool)
    requires KeyedById(db)
    ensures KeyedById(ServeAll(db, reqs, isUrl))
    decreases |reqs|
  {
    if |reqs| > 0 {
      ServeKeyedById(db, reqs[0], isUrl);
      ServeAllKeyedById(Serve(db, reqs[0], isUrl), reqs[1..], isUrl);
    }
  }

  /** The service with the deduplicating import; every other request is
      served as before. */
  function ServeCorrected(db: Db, req: Request, isUrl: string -> bool): (r: Db)
    ensures db.nextId <= r.nextId
    ensures !req.ImportRequest? ==> r == Serve(db, req, isUrl)
  {
    if req.ImportRequest? then ImportDeduplicated(db, req.fetch).db else Serve(db, req, isUrl)
  }

  /** Every request of the corrected service keeps the store consistent. */
  lemma ServeCorrectedPreservesConsistency(db: Db, req: Request, isUrl: string -> bool)
    requires Consistent(db)
    ensures Consistent(ServeCorrected(db, req, isUrl))
  {
    if req.ImportRequest? {
      ImportDeduplicatedPreservesConsistency(db, req.fetch);
    } else {
      ServeConsistentIff(db, req, isUrl);
    }
  }

  /** The corrected service applied to a stream of requests. */
  function ServeAllCorrected(db: Db, reqs: seq<Request>, isUrl: string -> bool): (r: Db)
    ensures db.nextId <= r.nextId
    decreases |reqs|
  {
    if |reqs| == 0 then db else ServeAllCorrected(ServeCorrected(db, reqs[0], isUrl), reqs[1..], isUrl)
  }

  lemma {:induction false} ServeAllCorrectedPreservesConsistency(db: Db, reqs: seq<Request>, isUrl: string -> bool)
    requires Consistent(db)
    ensures Consistent(ServeAllCorrected(db, reqs, isUrl))
    decreases |reqs|
  {
    if |reqs| > 0 {
      ServeCorrectedPreservesConsistency(db, reqs[0], isUrl);
      ServeAllCorrectedPreservesConsistency(ServeCorrected(db, reqs[0], isUrl), reqs[1..], isUrl);
    }
  }

  /** Starting from an empty table, no request stream of the corrected
      service produces two titles equal ignoring case, nor two exactly equal
      titles. */
  lemma FromEmptyAlwaysConsistent(reqs: seq<Request>, isUrl: string -> bool)
    ensures Consistent(ServeAllCorrected(EmptyDb(), reqs, isUrl))
    ensures TitlesUnique(ServeAllCorrected(EmptyDb(), reqs, isUrl).rows)
  {
    ServeAllCorrectedPreservesConsistency(EmptyDb(), reqs, isUrl);
    IgnoringCaseImpliesExact(ServeAllCorrected(EmptyDb(), reqs, isUrl).rows);
  }
}
