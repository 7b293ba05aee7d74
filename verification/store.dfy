/** The `Product` table: the record shape, the keyed store that holds it, and
    the invariants the table is meant to keep. */
module Store {
  import opened Results
  import opened Text

  const TitleMaxLength := 255
  const CategoryMaxLength := 255
  /** Django's default `max_length` for a `URLField`. */
  const ImageMaxLength := 200
  /** The first value an auto-increment primary key hands out. */
  const FirstId := 1

  /** One row. `price` and `ratingRate` are floating-point columns; they are
      carried as reals and only `ratingRate` is ever compared. */
  datatype Product = Product(
    id: int,
    title: string,
    price: real,
    description: string,
    category: string,
    image: string,
    ratingRate: real,
    ratingCount: int)

  /** The table, keyed by primary key, with the auto-increment counter. The
      counter only grows, so a deleted id is never handed out again. */
  datatype Db = Db(rows: map<int, Product>, nextId: int)

  /** Every row sits under its own primary key, and every key was issued by
      the counter. */
  predicate KeyedById(db: Db) {
    && FirstId <= db.nextId
    && forall k :: k in db.rows ==> FirstId <= k < db.nextId && db.rows[k].id == k
  }

  /** The application-level invariant: no two rows have titles that are
      equal ignoring case. */
  predicate TitlesUniqueIgnoringCase(rows: map<int, Product>) {
    forall a, b :: a in rows && b in rows && a != b ==> !SameIgnoringCase(rows[a].title, rows[b].title)
  }

  /** The storage-level constraint `unique=True`: no two rows have exactly
      equal titles. */
  predicate TitlesUnique(rows: map<int, Product>) {
    forall a, b :: a in rows && b in rows && a != b ==> rows[a].title != rows[b].title
  }

  /** The state every operation of the views is meant to preserve. */
  predicate Consistent(db: Db) {
    KeyedById(db) && TitlesUniqueIgnoringCase(db.rows)
  }

  /** The column limits the model declares for the text fields. */
  predicate FitsColumns(p: Product) {
    && |p.title| <= TitleMaxLength
    && |p.category| <= CategoryMaxLength
    && |p.image| <= ImageMaxLength
  }

  /** An empty, freshly migrated table. */
  function EmptyDb(): (db: Db)
    ensures Consistent(db) && db.rows == map[]
  {
    Db(map[], FirstId)
  }

  /** The case-insensitive invariant is the stronger one: it implies the
      database's exact-match uniqueness constraint. */
  lemma IgnoringCaseImpliesExact(rows: map<int, Product>)
    requires TitlesUniqueIgnoringCase(rows)
    ensures TitlesUnique(rows)
  {
  }

  const IdLabel := "Id: "
  const TitleLabel := " ,  title : "

  /** The string form of a row: its id and its title. */
  function Display(p: Product): (s: string)
    ensures |s| == |IdLabel| + |IntToDecimal(p.id)| + |TitleLabel| + |p.title|
    ensures s[..|IdLabel|] == IdLabel
    ensures s[|s| - |p.title|..] == p.title
  {
    IdLabel + IntToDecimal(p.id) + TitleLabel + p.title
  }

  /** Reads a digit run, the title label, and the title after it. */
  function ReadUnsigned(s: string): Option<(nat, string)> {
    var n := LeadingDigits(s);
    if n == 0 || |s| - n < |TitleLabel| || s[n..n + |TitleLabel|] != TitleLabel then None
    else Some((DecimalValue(s[..n]), s[n + |TitleLabel|..]))
  }

  /** Reads an optionally signed id, the title label and the title. */
  function ReadIdAndTitle(body: string): Option<(int, string)> {
    var signed := |body| > 0 && body[0] == '-';
    var u := ReadUnsigned(body[if signed then 1 else 0..]);
    if u.None? then None
    else Some((if signed then -(u.value.0 as int) else u.value.0 as int, u.value.1))
  }

  /** Reads an id and a title back out of a string form; `None` when the
      text is not shaped like one. */
  function ParseDisplay(s: string): Option<(int, string)> {
    if |s| < |IdLabel| || s[..|IdLabel|] != IdLabel then None
    else ReadIdAndTitle(s[|IdLabel|..])
  }

  /** The three parts of a digit run, the title label and a title can be
      cut back out by position. */
  lemma SplitAfterDigits(digits: string, title: string)
    ensures var s := digits + (TitleLabel + title);
      && s[..|digits|] == digits
      && s[|digits|..|digits| + |TitleLabel|] == TitleLabel
      && s[|digits| + |TitleLabel|..] == title
  {
    var s := digits + (TitleLabel + title);
    assert s[|digits|..] == TitleLabel + title;
    assert s[|digits|..][..|TitleLabel|] == TitleLabel;
    assert s[|digits|..][|TitleLabel|..] == title;
  }

  /** A digit run followed by the title label reads back as the number
      those digits denote and the title. */
  lemma ReadUnsignedOfDigits(digits: string, title: string)
    requires AllDigits(digits) && |digits| > 0
    ensures ReadUnsigned(digits + (TitleLabel + title)) == Some((DecimalValue(digits), title))
  {
    var s := digits + (TitleLabel + title);
    assert !IsDigit((TitleLabel + title)[0]);
    LeadingDigitsOfDecimal(digits, TitleLabel + title);
    SplitAfterDigits(digits, title);
  }

  /** A minus sign in front negates whatever the rest reads as. */
  lemma ReadSigned(body: string, v: nat, title: string)
    requires |body| > 0 && body[0] == '-' && ReadUnsigned(body[1..]) == Some((v, title))
    ensures ReadIdAndTitle(body) == Some((-(v as int), title))
  {
  }

  /** Without a sign the value is read as it is. */
  lemma ReadUnsignedId(body: string, v: nat, title: string)
    requires |body| > 0 && body[0] != '-' && ReadUnsigned(body) == Some((v, title))
    ensures ReadIdAndTitle(body) == Some((v as int, title))
  {
    assert body[0..] == body;
  }

  /** The rendered id followed by the title label reads back as that id and
      that title. */
  lemma ReadIdAndTitleRoundTrip(id: int, title: string)
    ensures ReadIdAndTitle(IntToDecimal(id) + (TitleLabel + title)) == Some((id, title))
  {
    var magnitude: nat := if id < 0 then -id else id;
    var digits := NatToDecimal(magnitude);
    DecimalRoundTrip(magnitude);
    if id < 0 {
      var body := ("-" + digits) + (TitleLabel + title);
      assert body[1..] == digits + (TitleLabel + title);
      ReadUnsignedOfDigits(digits, title);
      ReadSigned(body, magnitude, title);
    } else {
      var body := digits + (TitleLabel + title);
      assert body[0] == digits[0];
      ReadUnsignedOfDigits(digits, title);
      ReadUnsignedId(body, magnitude, title);
    }
  }

  /** The string form identifies the row it was made from: both the id and
      the title can be read back from it. */
  lemma DisplayRoundTrip(p: Product)
    ensures ParseDisplay(Display(p)) == Some((p.id, p.title))
  {
    var body := IntToDecimal(p.id) + (TitleLabel + p.title);
    assert Display(p) == IdLabel + body;
    assert Display(p)[|IdLabel|..] == body;
    ReadIdAndTitleRoundTrip(p.id, p.title);
  }
}
