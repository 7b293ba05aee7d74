/** `ProductViewSet`: the read side. The queryset is every row ordered by
    rating, highest first, narrowed by the search filter on `title`. */
module ProductViewSet {
  import opened Results
  import opened Text
  import opened Store

  /** The search filter: every search term occurs in the title, ignoring
      case. No terms means no filtering. */
  predicate MatchesSearch(p: Product, terms: seq<string>) {
    forall i :: 0 <= i < |terms| ==> ContainsIgnoringCase(p.title, terms[i])
  }

  /** The listing order. The source asks only for a higher rating first; ties
      are put in ascending id order so that the order is deterministic. */
  predicate RanksBefore(p: Product, q: Product) {
    p.ratingRate > q.ratingRate || (p.ratingRate == q.ratingRate && p.id <= q.id)
  }

  predicate Ranked(s: seq<Product>) {
    forall i, j :: 0 <= i < j < |s| ==> RanksBefore(s[i], s[j])
  }

  /** A head ranked before every element of a ranked tail gives a ranked
      sequence. */
  lemma RankedCons(x: Product, rest: seq<Product>)
    requires Ranked(rest)
    requires forall y :: y in rest ==> RanksBefore(x, y)
    ensures Ranked([x] + rest)
  {
  }

  /** Ranking is transitive, so a product ranked before the head of a
      ranked sequence is ranked before all of it. */
  lemma BeforeHeadBeforeAll(p: Product, s: seq<Product>)
    requires Ranked(s) && |s| > 0 && RanksBefore(p, s[0])
    ensures forall y :: y in s ==> RanksBefore(p, y)
  {
  }

  /** Ranking is total: when `p` does not go before the head, the head goes
      before `p` and before everything of the tail. */
  lemma HeadBeforeInsertion(s: seq<Product>, p: Product, rest: seq<Product>)
    requires Ranked(s) && |s| > 0 && !RanksBefore(p, s[0])
    requires multiset(rest) == multiset(s[1..]) + multiset{p}
    ensures forall y :: y in rest ==> RanksBefore(s[0], y)
  {
    forall y | y in rest
      ensures RanksBefore(s[0], y)
    {
      assert y in multiset(rest);
      if y != p {
        assert y in multiset(s[1..]);
        var j :| 0 <= j < |s| - 1 && s[1..][j] == y;
        assert s[j + 1] == y;
      }
    }
  }

  /** Place `p` into an already ranked sequence. */
  function InsertRanked(s: seq<Product>, p: Product): (r: seq<Product>)
    requires Ranked(s)
    ensures Ranked(r)
    ensures multiset(r) == multiset(s) + multiset{p}
    ensures forall x :: x in r <==> x in s || x == p
    decreases |s|
  {
    if |s| == 0 then [p]
    else if RanksBefore(p, s[0]) then
      BeforeHeadBeforeAll(p, s);
      RankedCons(p, s);
      [p] + s
    else
      var rest := InsertRanked(s[1..], p);
      HeadBeforeInsertion(s, p, rest);
      RankedCons(s[0], rest);
      assert s == [s[0]] + s[1..];
      [s[0]] + rest
  }

  /** What the list holds once every key below `bound` has been visited:
      only matching stored rows, with keys below `bound`, and each matching
      row with such a key exactly once. */
  predicate ListedBelow(db: Db, terms: seq<string>, r: seq<Product>, bound: int) {
    && (forall p :: p in r ==> p.id in db.rows && p.id < bound && db.rows[p.id] == p && MatchesSearch(p, terms))
    && (forall key :: key in db.rows && key < bound && MatchesSearch(db.rows[key], terms) ==> multiset(r)[db.rows[key]] == 1)
  }

  /** Visiting key `id` extends the listing by that row when it matches. */
  function Visit(db: Db, terms: seq<string>, r: seq<Product>, id: int): (r': seq<Product>)
    requires Ranked(r)
    ensures Ranked(r')
  {
    if id in db.rows && MatchesSearch(db.rows[id], terms) then InsertRanked(r, db.rows[id]) else r
  }

  /** Inserting the row under key `id` leaves the count of every row with
      a smaller key as it was, and counts the new row once. */
  lemma VisitCounts(db: Db, terms: seq<string>, r: seq<Product>, id: int)
    requires KeyedById(db)
    requires Ranked(r)
    requires ListedBelow(db, terms, r, id)
    requires id in db.rows && MatchesSearch(db.rows[id], terms)
    ensures forall key :: key in db.rows && key < id + 1 && MatchesSearch(db.rows[key], terms) ==>
      multiset(InsertRanked(r, db.rows[id]))[db.rows[key]] == 1
  {
    var p := db.rows[id];
    assert p !in multiset(r) by {
      assert p.id == id;
    }
    var r' := InsertRanked(r, p);
    forall key | key in db.rows && key < id + 1 && MatchesSearch(db.rows[key], terms)
      ensures multiset(r')[db.rows[key]] == 1
    {
      if key < id {
        assert db.rows[key].id == key;
      }
    }
  }

  lemma VisitExtendsListing(db: Db, terms: seq<string>, r: seq<Product>, id: int)
    requires KeyedById(db)
    requires Ranked(r)
    requires ListedBelow(db, terms, r, id)
    ensures ListedBelow(db, terms, Visit(db, terms, r, id), id + 1)
  {
    if id in db.rows && MatchesSearch(db.rows[id], terms) {
      VisitCounts(db, terms, r, id);
    }
  }

  /** `r` is the listing of `db` under `terms`: matching stored rows only,
      each under its own key, every matching row exactly once, in rank
      order. */
  predicate IsListing(db: Db, terms: seq<string>, r: seq<Product>) {
    && (forall p :: p in r ==> p.id in db.rows && db.rows[p.id] == p && MatchesSearch(p, terms))
    && (forall k :: k in db.rows && MatchesSearch(db.rows[k], terms) ==> multiset(r)[db.rows[k]] == 1)
    && Ranked(r)
  }

  /** GET list: every stored row that matches the search, each exactly once,
      highest rating first. The rows are visited in key order. */
  method List(db: Db, terms: seq<string>) returns (r: seq<Product>)
    requires KeyedById(db)
    ensures IsListing(db, terms, r)
    ensures forall i, j :: 0 <= i < j < |r| ==> r[i].ratingRate >= r[j].ratingRate
  {
    r := [];
    var id := FirstId;
    while id < db.nextId
      invariant FirstId <= id <= db.nextId
      invariant Ranked(r)
      invariant ListedBelow(db, terms, r, id)
      decreases db.nextId - id
    {
      VisitExtendsListing(db, terms, r, id);
      r := Visit(db, terms, r, id);
      id := id + 1;
    }
  }

  /** GET one: the row under `id`, if it exists and passes the same search
      filter as the list. */
  function Retrieve(db: Db, id: int, terms: seq<string>): (r: Outcome<Product>)
    ensures r.Ok? <==> id in db.rows && MatchesSearch(db.rows[id], terms)
    ensures r.Ok? ==> r.value == db.rows[id]
    ensures r.Err? ==> r.error == NotFound
  {
    if id in db.rows && MatchesSearch(db.rows[id], terms) then Ok(db.rows[id]) else Err(NotFound)
  }

  /** Retrieve and list go through the same filtered queryset: an id can be
      retrieved exactly when its row appears in the listing, and then the
      retrieved row is the listed one. */
  lemma RetrieveAgreesWithList(db: Db, terms: seq<string>, r: seq<Product>, id: int)
    requires KeyedById(db)
    requires IsListing(db, terms, r)
    ensures Retrieve(db, id, terms).Ok? <==> exists p :: p in r && p.id == id
    ensures Retrieve(db, id, terms).Ok? ==> Retrieve(db, id, terms).value in r
  {
    if id in db.rows && MatchesSearch(db.rows[id], terms) {
      assert db.rows[id] in multiset(r);
      assert db.rows[id].id == id;
    }
  }
}
