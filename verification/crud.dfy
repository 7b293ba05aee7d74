/** `CreateUpdateDeleteProduct`: create, partial update and single delete. */
module CreateUpdateDeleteProduct {
  import opened Results
  import opened Text
  import opened Store
  import opened Requests

  /** The row a complete payload becomes under a given id. */
  function NewProduct(id: int, data: Payload): Product
    requires Complete(data)
  {
    Product(id, data.title.value, data.price.value, data.description.value,
            data.category.value, data.image.value, data.ratingRate.value, data.ratingCount.value)
  }

  /** POST: refuse a title already present ignoring case, then validate, then
      insert under the next id. */
  function Create(db: Db, data: Payload, isUrl: string -> bool): (r: Step<Product>)
    ensures r.out.Err? ==> r.db == db
    ensures r.out == Err(DuplicateTitle) <==> TitleConflict(db.rows, data, None)
    ensures r.out == Err(ValidationFailed)
      <==> !TitleConflict(db.rows, data, None) && !(Complete(data) && SuppliedFieldsValid(data, isUrl))
    ensures r.out.Ok? <==> !TitleConflict(db.rows, data, None) && Complete(data) && SuppliedFieldsValid(data, isUrl)
    ensures r.out.Ok? ==>
      var p := r.out.value;
      && p.id == db.nextId
      && r.db.nextId == db.nextId + 1
      && r.db.rows == db.rows[p.id := p]
      && CarriesPayload(p, data)
      && FitsColumns(p)
      && !TitleTaken(db.rows, p.title, None)
    ensures KeyedById(db) && r.out.Ok? ==>
      && r.out.value.id !in db.rows
      && |r.db.rows| == |db.rows| + 1
  {
    if TitleConflict(db.rows, data, None) then Step(db, Err(DuplicateTitle))
    else if !(Complete(data) && SuppliedFieldsValid(data, isUrl)) then Step(db, Err(ValidationFailed))
    else
      var p := NewProduct(db.nextId, data);
      Step(Db(db.rows[db.nextId := p], db.nextId + 1), Ok(p))
  }

  /** A successful create keeps the store consistent; a failed one leaves it
      as it was. */
  lemma CreatePreservesConsistency(db: Db, data: Payload, isUrl: string -> bool)
    requires Consistent(db)
    ensures Consistent(Create(db, data, isUrl).db)
  {
  }

  /** The supplied fields overwritten on `before`. */
  function Patch(before: Product, data: Payload): (after: Product)
    ensures ChangesOnlySupplied(before, after, data)
  {
    before.(
      title := if data.title.Some? then data.title.value else before.title,
      price := if data.price.Some? then data.price.value else before.price,
      description := if data.description.Some? then data.description.value else before.description,
      category := if data.category.Some? then data.category.value else before.category,
      image := if data.image.Some? then data.image.value else before.image,
      ratingRate := if data.ratingRate.Some? then data.ratingRate.value else before.ratingRate,
      ratingCount := if data.ratingCount.Some? then data.ratingCount.value else before.ratingCount)
  }

  /** A payload that supplies every column replaces the whole row, as a
      create under the same id would build it. */
  lemma PatchCompleteIsNew(before: Product, data: Payload)
    requires Complete(data)
    ensures Patch(before, data) == NewProduct(before.id, data)
  {
  }

  /** Applying the same partial update twice is the same as once. */
  lemma PatchIdempotent(before: Product, data: Payload)
    ensures Patch(Patch(before, data), data) == Patch(before, data)
  {
  }

  /** A payload that supplies nothing leaves the row as it was. */
  lemma PatchEmptyIsIdentity(before: Product)
    ensures Patch(before, Payload(None, None, None, None, None, None, None)) == before
  {
  }

  /** PUT: the id is required; the duplicate check skips the row being
      updated and runs before the lookup of that row; then only the supplied
      fields are validated and written. */
  function Update(db: Db, id: Option<int>, data: Payload, isUrl: string -> bool): (r: Step<Product>)
    ensures r.out.Err? ==> r.db == db
    ensures id.None? ==> r.out == Err(MissingIdentifier)
    ensures id.Some? ==> (r.out == Err(DuplicateTitle) <==> TitleConflict(db.rows, data, id))
    ensures r.out == Err(NotFound)
      <==> id.Some? && !TitleConflict(db.rows, data, id) && id.value !in db.rows
    ensures r.out == Err(ValidationFailed)
      <==> id.Some? && !TitleConflict(db.rows, data, id) && id.value in db.rows && !SuppliedFieldsValid(data, isUrl)
    ensures r.out.Ok?
      <==> id.Some? && !TitleConflict(db.rows, data, id) && id.value in db.rows && SuppliedFieldsValid(data, isUrl)
    ensures r.out.Ok? ==>
      && id.Some? && id.value in db.rows
      && ChangesOnlySupplied(db.rows[id.value], r.out.value, data)
      && r.db == db.(rows := db.rows[id.value := r.out.value])
  {
    if id.None? then Step(db, Err(MissingIdentifier))
    else if TitleConflict(db.rows, data, id) then Step(db, Err(DuplicateTitle))
    else if id.value !in db.rows then Step(db, Err(NotFound))
    else if !SuppliedFieldsValid(data, isUrl) then Step(db, Err(ValidationFailed))
    else
      var p := Patch(db.rows[id.value], data);
      Step(db.(rows := db.rows[id.value := p]), Ok(p))
  }

  /** Saving a row under its own title, in any letter case, is not a
      conflict: the row being updated is left out of the duplicate check. */
  lemma UpdateOwnTitleAnyCase(db: Db, id: int, data: Payload, isUrl: string -> bool)
    requires Consistent(db)
    requires id in db.rows
    requires data.title.Some? && SameIgnoringCase(data.title.value, db.rows[id].title)
    requires SuppliedFieldsValid(data, isUrl)
    ensures Update(db, Some(id), data, isUrl).out.Ok?
  {
  }

  /** A successful update keeps the store consistent. */
  lemma UpdatePreservesConsistency(db: Db, id: Option<int>, data: Payload, isUrl: string -> bool)
    requires Consistent(db)
    ensures Consistent(Update(db, id, data, isUrl).db)
  {
  }

  /** DELETE: the id is required and must name a row; exactly that row goes. */
  function Delete(db: Db, id: Option<int>): (r: Step<()>)
    ensures id.None? ==> r == Step(db, Err(MissingIdentifier))
    ensures id.Some? && id.value !in db.rows ==> r == Step(db, Err(NotFound))
    ensures id.Some? && id.value in db.rows ==>
      && r.out.Ok?
      && r.db.nextId == db.nextId
      && r.db.rows.Keys == db.rows.Keys - {id.value}
      && forall k :: k in r.db.rows ==> r.db.rows[k] == db.rows[k]
  {
    if id.None? then Step(db, Err(MissingIdentifier))
    else if id.value !in db.rows then Step(db, Err(NotFound))
    else Step(db.(rows := db.rows - {id.value}), Ok(()))
  }

  lemma DeletePreservesConsistency(db: Db, id: Option<int>)
    requires Consistent(db)
    ensures Consistent(Delete(db, id).db)
  {
  }
}
