/** What the write views receive and share: the request payload, the field
    checks the serializer applies to it, the case-insensitive title lookup,
    and the (new store, outcome) pair every operation returns. */
module Requests {
  import opened Results
  import opened Text
  import opened Store

  /** The body of a create or update request. A field the client left out
      is `None`. Values arrive already typed; see the README for what that
      leaves out. */
  datatype Payload = Payload(
    title: Option<string>,
    price: Option<real>,
    description: Option<string>,
    category: Option<string>,
    image: Option<string>,
    ratingRate: Option<real>,
    ratingCount: Option<int>)

  /** Every operation returns the store after the request and its outcome. */
  datatype Step<+T> = Step(db: Db, out: Outcome<T>)

  /** Some row other than `exclude` has a title equal to `title` ignoring
      case: the `title__iexact` filter, with the optional `.exclude(...)`. */
  predicate TitleTaken(rows: map<int, Product>, title: string, exclude: Option<int>) {
    exists k :: k in rows && exclude != Some(k) && SameIgnoringCase(rows[k].title, title)
  }

  /** The duplicate check the views run before touching the serializer. A
      request without a title filters on a null title, which matches no row. */
  predicate TitleConflict(rows: map<int, Product>, data: Payload, exclude: Option<int>) {
    data.title.Some? && TitleTaken(rows, data.title.value, exclude)
  }

  /** A supplied text field must be non-blank and within its column length. */
  predicate TextFieldOk(v: Option<string>, maxLength: int) {
    v.Some? ==> 0 < |v.value| <= maxLength
  }

  /** The serializer's field checks on the fields that were supplied. The
      URL syntax check on `image` is the parameter `isUrl`. */
  predicate SuppliedFieldsValid(data: Payload, isUrl: string -> bool) {
    && TextFieldOk(data.title, TitleMaxLength)
    && (data.description.Some? ==> 0 < |data.description.value|)
    && TextFieldOk(data.category, CategoryMaxLength)
    && TextFieldOk(data.image, ImageMaxLength)
    && (data.image.Some? ==> isUrl(data.image.value))
  }

  /** Creation needs every column: none of them has a default. */
  predicate Complete(data: Payload) {
    && data.title.Some?
    && data.price.Some?
    && data.description.Some?
    && data.category.Some?
    && data.image.Some?
    && data.ratingRate.Some?
    && data.ratingCount.Some?
  }

  /** `p` holds the value of every field `data` supplies. */
  predicate CarriesPayload(p: Product, data: Payload) {
    && (data.title.Some? ==> p.title == data.title.value)
    && (data.price.Some? ==> p.price == data.price.value)
    && (data.description.Some? ==> p.description == data.description.value)
    && (data.category.Some? ==> p.category == data.category.value)
    && (data.image.Some? ==> p.image == data.image.value)
    && (data.ratingRate.Some? ==> p.ratingRate == data.ratingRate.value)
    && (data.ratingCount.Some? ==> p.ratingCount == data.ratingCount.value)
  }

  /** `after` keeps `before`'s value in every field `data` leaves out. */
  predicate KeepsUnsupplied(before: Product, after: Product, data: Payload) {
    && (data.title.None? ==> after.title == before.title)
    && (data.price.None? ==> after.price == before.price)
    && (data.description.None? ==> after.description == before.description)
    && (data.category.None? ==> after.category == before.category)
    && (data.image.None? ==> after.image == before.image)
    && (data.ratingRate.None? ==> after.ratingRate == before.ratingRate)
    && (data.ratingCount.None? ==> after.ratingCount == before.ratingCount)
  }

  /** `after` agrees with `data` on every supplied field and with `before`
      on every other one, the primary key included. */
  predicate ChangesOnlySupplied(before: Product, after: Product, data: Payload) {
    after.id == before.id && CarriesPayload(after, data) && KeepsUnsupplied(before, after, data)
  }
}
