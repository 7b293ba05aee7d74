/** `ProductImportView`: pull product descriptors from an outside catalogue
    and insert the ones whose title the store does not already hold. The
    fetch itself is an input: it either failed or produced a sequence. */
module ProductImportView {
  import opened Results
  import opened Text
  import opened Store
  import opened Requests

  /** One entry of the outside catalogue, with its nested rating flattened. */
  datatype Descriptor = Descriptor(
    title: string,
    price: real,
    description: string,
    category: string,
    image: string,
    rate: real,
    count: int)

  /** What the fetch produced: a non-200 answer, or the decoded list. */
  datatype Fetch = FetchFailed | Fetched(items: seq<Descriptor>)

  /** The row a descriptor becomes under a given id. */
  function Materialize(id: int, d: Descriptor): Product {
    Product(id, d.title, d.price, d.description, d.category, d.image, d.rate, d.count)
  }

  /** The per-descriptor filter: keep a descriptor when no STORED title
      equals its title ignoring case. Earlier descriptors of the same batch
      are not consulted. */
  function FreshDescriptors(rows: map<int, Product>, items: seq<Descriptor>): (kept: seq<Descriptor>)
    ensures forall i :: 0 <= i < |kept| ==> !TitleTaken(rows, kept[i].title, None)
    ensures forall d :: multiset(kept)[d] == if TitleTaken(rows, d.title, None) then 0 else multiset(items)[d]
    decreases |items|
  {
    if |items| == 0 then []
    else
      var rest := FreshDescriptors(rows, items[1..]);
      assert items == [items[0]] + items[1..];
      if TitleTaken(rows, items[0].title, None) then rest else [items[0]] + rest
  }

  predicate DistinctTitles(batch: seq<Descriptor>) {
    forall i, j :: 0 <= i < j < |batch| ==> batch[i].title != batch[j].title
  }

  predicate DistinctTitlesIgnoringCase(batch: seq<Descriptor>) {
    forall i, j :: 0 <= i < j < |batch| ==> !SameIgnoringCase(batch[i].title, batch[j].title)
  }

  /** Titles distinct ignoring case are distinct exactly. */
  lemma DistinctIgnoringCaseIsDistinct(batch: seq<Descriptor>)
    requires DistinctTitlesIgnoringCase(batch)
    ensures DistinctTitles(batch)
  {
    forall i, j | 0 <= i < j < |batch|
      ensures batch[i].title != batch[j].title
    {
      if batch[i].title == batch[j].title {
        EqualIsSameIgnoringCase(batch[i].title, batch[j].title);
      }
    }
  }

  /** The rows a batch insert adds: consecutive ids from `next`, in batch
      order. */
  function NewRows(next: int, batch: seq<Descriptor>): (m: map<int, Product>)
    ensures forall k :: k in m <==> next <= k < next + |batch|
    ensures forall i :: 0 <= i < |batch| ==> m[next + i] == Materialize(next + i, batch[i])
    decreases |batch|
  {
    if |batch| == 0 then map[]
    else
      var last := |batch| - 1;
      NewRows(next, batch[..last])[next + last := Materialize(next + last, batch[last])]
  }

  /** Some batch title equals a stored title exactly. */
  predicate ClashesWithStore(rows: map<int, Product>, batch: seq<Descriptor>) {
    exists i, k :: 0 <= i < |batch| && k in rows && rows[k].title == batch[i].title
  }

  /** A batch that passed the case-insensitive filter holds no stored title
      exactly either. */
  lemma FreshBatchMissesStore(rows: map<int, Product>, batch: seq<Descriptor>)
    requires forall i :: 0 <= i < |batch| ==> !TitleTaken(rows, batch[i].title, None)
    ensures !ClashesWithStore(rows, batch)
  {
    forall i, k | 0 <= i < |batch| && k in rows
      ensures rows[k].title != batch[i].title
    {
      if rows[k].title == batch[i].title {
        EqualIsSameIgnoringCase(rows[k].title, batch[i].title);
        assert TitleTaken(rows, batch[i].title, None);
      }
    }
  }

  /** `bulk_create`: one transaction. The table's unique
      index on `title` refuses the whole statement when a new row would share
      a title exactly with another new row or with a stored one. */
  function Commit(db: Db, batch: seq<Descriptor>): (r: Step<nat>)
    ensures !DistinctTitles(batch) || ClashesWithStore(db.rows, batch) ==> r == Step(db, Err(IntegrityError))
    ensures DistinctTitles(batch) && !ClashesWithStore(db.rows, batch) ==>
      && r.out == Ok(|batch|)
      && r.db.nextId == db.nextId + |batch|
      && (forall k :: k in r.db.rows <==> k in db.rows || db.nextId <= k < db.nextId + |batch|)
      && (forall i :: 0 <= i < |batch| ==> r.db.rows[db.nextId + i] == Materialize(db.nextId + i, batch[i]))
      && (KeyedById(db) ==> forall k :: k in db.rows ==> r.db.rows[k] == db.rows[k])
  {
    if !DistinctTitles(batch) || ClashesWithStore(db.rows, batch) then Step(db, Err(IntegrityError))
    else Step(Db(db.rows + NewRows(db.nextId, batch), db.nextId + |batch|), Ok(|batch|))
  }

  /** POST: a failed fetch is an error; otherwise the fresh descriptors are
      inserted in one batch and counted, and an empty batch is a success
      that changes nothing. */
  function Import(db: Db, fetch: Fetch): (r: Step<nat>)
    ensures r.out.Err? ==> r.db == db
    ensures fetch.FetchFailed? ==> r == Step(db, Err(UpstreamUnavailable))
    ensures fetch.Fetched? ==>
      var kept := FreshDescriptors(db.rows, fetch.items);
      && (r.out == Ok(|kept|) <==> DistinctTitles(kept))
      && (r.out == Err(IntegrityError) <==> !DistinctTitles(kept))
      && (|kept| == 0 ==> r == Step(db, Ok(0)))
      && (r.out.Ok? ==> r == Commit(db, kept))
  {
    match fetch
    case FetchFailed => Step(db, Err(UpstreamUnavailable))
    case Fetched(items) =>
      var kept := FreshDescriptors(db.rows, items);
      FreshBatchMissesStore(db.rows, kept);
      if |kept| == 0 then Step(db, Ok(0)) else Commit(db, kept)
  }

  /** The row a batch insert put under a new key `k`. */
  lemma CommittedRow(db: Db, batch: seq<Descriptor>, k: int)
    requires DistinctTitles(batch) && !ClashesWithStore(db.rows, batch)
    requires db.nextId <= k < db.nextId + |batch|
    ensures k in Commit(db, batch).db.rows
    ensures Commit(db, batch).db.rows[k] == Materialize(k, batch[k - db.nextId])
  {
  }

  /** A batch insert keeps every row under its own, counter-issued key. */
  lemma CommitKeyedById(db: Db, batch: seq<Descriptor>)
    requires KeyedById(db)
    requires DistinctTitles(batch) && !ClashesWithStore(db.rows, batch)
    ensures KeyedById(Commit(db, batch).db)
  {
    var r := Commit(db, batch).db;
    forall k | k in r.rows
      ensures FirstId <= k < r.nextId && r.rows[k].id == k
    {
      if k !in db.rows {
        CommittedRow(db, batch, k);
      }
    }
  }

  /** A fresh batch with no two titles equal ignoring case keeps the store
      consistent. */
  lemma CommitPreservesConsistency(db: Db, batch: seq<Descriptor>)
    requires Consistent(db)
    requires DistinctTitles(batch)
    requires forall i :: 0 <= i < |batch| ==> !TitleTaken(db.rows, batch[i].title, None)
    requires DistinctTitlesIgnoringCase(batch)
    ensures Consistent(Commit(db, batch).db)
  {
    var r := Commit(db, batch).db;
    var n := db.nextId;
    FreshBatchMissesStore(db.rows, batch);
    CommitKeyedById(db, batch);
    forall a, b | a in r.rows && b in r.rows && a != b
      ensures !SameIgnoringCase(r.rows[a].title, r.rows[b].title)
    {
      if a !in db.rows && b !in db.rows {
        CommittedRow(db, batch, a);
        CommittedRow(db, batch, b);
        if a < b {
          assert !SameIgnoringCase(batch[a - n].title, batch[b - n].title);
        } else {
          assert !SameIgnoringCase(batch[b - n].title, batch[a - n].title);
        }
      } else if a !in db.rows {
        CommittedRow(db, batch, a);
        assert !TitleTaken(db.rows, batch[a - n].title, None);
      } else if b !in db.rows {
        CommittedRow(db, batch, b);
        assert !TitleTaken(db.rows, batch[b - n].title, None);
      }
    }
  }

  /** Two batch entries equal ignoring case end up as two rows equal
      ignoring case. */
  lemma CommitKeepsBatchClash(db: Db, batch: seq<Descriptor>, i: int, j: int)
    requires DistinctTitles(batch) && !ClashesWithStore(db.rows, batch)
    requires 0 <= i < j < |batch| && SameIgnoringCase(batch[i].title, batch[j].title)
    ensures !TitlesUniqueIgnoringCase(Commit(db, batch).db.rows)
  {
  }

  /** Inserting a batch of titles the store does not hold keeps the store
      consistent exactly when the batch has no two titles equal ignoring
      case. */
  lemma CommitConsistentIff(db: Db, batch: seq<Descriptor>)
    requires Consistent(db)
    requires DistinctTitles(batch)
    requires forall i :: 0 <= i < |batch| ==> !TitleTaken(db.rows, batch[i].title, None)
    ensures Consistent(Commit(db, batch).db) <==> DistinctTitlesIgnoringCase(batch)
  {
    if DistinctTitlesIgnoringCase(batch) {
      CommitPreservesConsistency(db, batch);
    } else {
      var i, j :| 0 <= i < j < |batch| && SameIgnoringCase(batch[i].title, batch[j].title);
      FreshBatchMissesStore(db.rows, batch);
      CommitKeepsBatchClash(db, batch, i, j);
    }
  }

  /** Import keeps the case-insensitive invariant exactly when the kept
      descriptors are pairwise distinct ignoring case: the filter looks at
      the store only, so the batch itself is the gap. */
  lemma ImportConsistentIff(db: Db, fetch: Fetch)
    requires Consistent(db)
    requires fetch.Fetched?
    requires Import(db, fetch).out.Ok?
    ensures Consistent(Import(db, fetch).db)
      <==> DistinctTitlesIgnoringCase(FreshDescriptors(db.rows, fetch.items))
  {
    var kept := FreshDescriptors(db.rows, fetch.items);
    if |kept| > 0 {
      CommitConsistentIff(db, kept);
    }
  }

  /** A descriptor with a catalogue title. */
  function Titled(title: string): Descriptor {
    Descriptor(title, 1.0, "d", "c", "http://x", 4.5, 10)
  }

  /** With nothing stored, the filter keeps every fetched descriptor. */
  lemma {:induction false} FreshFromEmptyStore(items: seq<Descriptor>)
    ensures FreshDescriptors(map[], items) == items
    decreases |items|
  {
    if |items| > 0 {
      FreshFromEmptyStore(items[1..]);
      assert !TitleTaken(map[], items[0].title, None);
      assert FreshDescriptors(map[], items) == [items[0]] + FreshDescriptors(map[], items[1..]);
      assert [items[0]] + items[1..] == items;
    }
  }

  /** "Shoe" and "SHOE" differ exactly but not ignoring case, and an empty
      store keeps both. */
  lemma CaseOnlyPair()
    ensures var items := [Titled("Shoe"), Titled("SHOE")];
      && FreshDescriptors(EmptyDb().rows, items) == items
      && DistinctTitles(items)
      && !DistinctTitlesIgnoringCase(items)
  {
    var items := [Titled("Shoe"), Titled("SHOE")];
    FreshFromEmptyStore(items);
    assert "Shoe"[1] != "SHOE"[1];
    assert Lower("Shoe") == "shoe";
    assert Lower("SHOE") == "shoe";
  }

  /** Two descriptors differing only in letter case, fed to an empty store,
      are both imported and leave two titles equal ignoring case. */
  lemma ImportBatchCaseDuplicates()
    ensures var r := Import(EmptyDb(), Fetched([Titled("Shoe"), Titled("SHOE")]));
            r.out == Ok(2) && !Consistent(r.db)
  {
    var items := [Titled("Shoe"), Titled("SHOE")];
    CaseOnlyPair();
    FreshBatchMissesStore(map[], items);
    CommitKeepsBatchClash(EmptyDb(), items, 0, 1);
  }

  /** Two descriptors with the very same title, fed to an empty store, both
      pass the filter and make the batch insert hit the unique index. */
  lemma ImportBatchExactDuplicatesFail()
    ensures var r := Import(EmptyDb(), Fetched([Titled("Shoe"), Titled("Shoe")]));
            r == Step(EmptyDb(), Err(IntegrityError))
  {
  }

  /** A title equal, ignoring case, to one in `batch`. */
  predicate TitleInBatch(batch: seq<Descriptor>, title: string) {
    exists j :: 0 <= j < |batch| && SameIgnoringCase(batch[j].title, title)
  }

  /** A title found in a batch is still found once the batch grows. */
  lemma TitleInLongerBatch(batch: seq<Descriptor>, d: Descriptor, title: string)
    requires TitleInBatch(batch, title)
    ensures TitleInBatch(batch + [d], title)
  {
    var j :| 0 <= j < |batch| && SameIgnoringCase(batch[j].title, title);
    assert (batch + [d])[j] == batch[j];
  }

  /** Appending a descriptor whose title the batch does not hold keeps the
      batch free of titles equal ignoring case. */
  lemma AppendKeepsDistinct(batch: seq<Descriptor>, d: Descriptor)
    requires DistinctTitlesIgnoringCase(batch)
    requires !TitleInBatch(batch, d.title)
    ensures DistinctTitlesIgnoringCase(batch + [d])
  {
  }

  /** The intended filter: a descriptor is kept when its title matches
      neither a stored title nor the title of one kept before it. */
  function Deduplicate(rows: map<int, Product>, items: seq<Descriptor>): (r: seq<Descriptor>)
    ensures forall i :: 0 <= i < |r| ==> !TitleTaken(rows, r[i].title, None)
    ensures DistinctTitlesIgnoringCase(r)
    ensures forall i :: 0 <= i < |r| ==> r[i] in items
    decreases |items|
  {
    if |items| == 0 then []
    else
      var init := items[..|items| - 1];
      var d := items[|items| - 1];
      var r := Deduplicate(rows, init);
      assert forall x :: x in init ==> x in items;
      if TitleTaken(rows, d.title, None) || TitleInBatch(r, d.title) then r
      else
        AppendKeepsDistinct(r, d);
        r + [d]
  }

  /** Nothing is dropped without cause: every descriptor left out has its
      title, ignoring case, in the store or among the kept ones. */
  lemma {:induction false} DeduplicateDropsOnlyDuplicates(rows: map<int, Product>, items: seq<Descriptor>)
    ensures forall i :: 0 <= i < |items| ==>
      TitleTaken(rows, items[i].title, None) || TitleInBatch(Deduplicate(rows, items), items[i].title)
    decreases |items|
  {
    if |items| > 0 {
      var init := items[..|items| - 1];
      var d := items[|items| - 1];
      var r := Deduplicate(rows, init);
      DeduplicateDropsOnlyDuplicates(rows, init);
      var r' := Deduplicate(rows, items);
      forall i | 0 <= i < |items|
        ensures TitleTaken(rows, items[i].title, None) || TitleInBatch(r', items[i].title)
      {
        if i < |items| - 1 {
          assert items[i] == init[i];
          if !TitleTaken(rows, items[i].title, None) && r' != r {
            TitleInLongerBatch(r, d, items[i].title);
          }
        } else if !TitleTaken(rows, d.title, None) && r' != r {
          assert r'[|r|] == d;
          assert SameIgnoringCase(r'[|r|].title, d.title);
        }
      }
    }
  }

  /** Import as evidently intended: the batch is also deduplicated against
      itself, so the unique index can never be hit. */
  function ImportDeduplicated(db: Db, fetch: Fetch): (r: Step<nat>)
    ensures fetch.FetchFailed? ==> r == Step(db, Err(UpstreamUnavailable))
    ensures fetch.Fetched? ==>
      var kept := Deduplicate(db.rows, fetch.items);
      && r.out == Ok(|kept|)
      && (|kept| == 0 ==> r.db == db)
      && (|kept| > 0 ==> r == Commit(db, kept))
  {
    match fetch
    case FetchFailed => Step(db, Err(UpstreamUnavailable))
    case Fetched(items) =>
      var kept := Deduplicate(db.rows, items);
      FreshBatchMissesStore(db.rows, kept);
      if |kept| == 0 then Step(db, Ok(0))
      else
        DistinctIgnoringCaseIsDistinct(kept);
        Commit(db, kept)
  }

  /** The corrected import always keeps the store consistent. */
  lemma ImportDeduplicatedPreservesConsistency(db: Db, fetch: Fetch)
    requires Consistent(db)
    ensures Consistent(ImportDeduplicated(db, fetch).db)
  {
    if fetch.Fetched? {
      var kept := Deduplicate(db.rows, fetch.items);
      if |kept| > 0 {
        DistinctIgnoringCaseIsDistinct(kept);
        CommitConsistentIff(db, kept);
      }
    }
  }
}
