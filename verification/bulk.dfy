/** `DeleteBulkProduct`: delete every row whose id is in a given list. */
module DeleteBulkProduct {
  import opened Results
  import opened Store
  import opened Requests

  /** The `product_ids` member of the request body: absent, present but not
      a list, or a list of ids. */
  datatype IdsField = Missing | NotAList | IdList(ids: seq<int>)

  /** The body is usable when it holds a non-empty list. An absent member
      defaults to the empty list and is refused with it. */
  predicate UsableIds(field: IdsField) {
    field.IdList? && |field.ids| > 0
  }

  /** DELETE: the store minus the listed ids; ids that name no row are
      passed over without complaint. */
  function BulkDelete(db: Db, field: IdsField): (r: Step<()>)
    ensures !UsableIds(field) ==> r == Step(db, Err(InvalidInput))
    ensures UsableIds(field) ==>
      && r.out.Ok?
      && r.db.nextId == db.nextId
      && (forall k :: k in r.db.rows <==> k in db.rows && k !in field.ids)
      && (forall k :: k in r.db.rows ==> r.db.rows[k] == db.rows[k])
  {
    if !UsableIds(field) then Step(db, Err(InvalidInput))
    else Step(db.(rows := map k | k in db.rows && k !in field.ids :: db.rows[k]), Ok(()))
  }

  /** Running the same bulk delete twice is the same as running it once. */
  lemma BulkDeleteIdempotent(db: Db, field: IdsField)
    ensures var once := BulkDelete(db, field).db;
            BulkDelete(once, field).db == once
  {
  }

  /** Adding ids that name no row to the list changes nothing. */
  lemma BulkDeleteIgnoresUnknownIds(db: Db, ids: seq<int>, unknown: seq<int>)
    requires |ids| > 0
    requires forall k :: k in unknown ==> k !in db.rows
    ensures BulkDelete(db, IdList(ids + unknown)) == BulkDelete(db, IdList(ids))
  {
    var a := BulkDelete(db, IdList(ids + unknown)).db.rows;
    var b := BulkDelete(db, IdList(ids)).db.rows;
    forall k
      ensures k in a <==> k in b
    {
      assert k in ids + unknown <==> k in ids || k in unknown;
    }
    assert a == b;
  }

  lemma BulkDeletePreservesConsistency(db: Db, field: IdsField)
    requires Consistent(db)
    ensures Consistent(BulkDelete(db, field).db)
  {
  }
}
