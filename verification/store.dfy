/**
 The module-level run of the crawler: for each category, enumerate its
 recipe ids and append the record of every recipe whose page was fetched
 (crawler/recipes_crawl.py:118-133); then write the records into the
 `recipes` table with `INSERT OR REPLACE`, keyed by id
 (crawler/recipes_crawl.py:164-184).
 */
module Store {
  import opened Wrappers
  import opened Listing
  import opened Detail
  import opened Seqs

  /** The most ids enumerated per category. */
  const MaxCount: int := 60

  /** A category: its name, and the `cat4` number its listing pages are selected by. */
  datatype Category = Category(name: string, cat4: int)

  /** The categories crawled, in the order they are visited. */
  const Categories: seq<Category> := [
    Category("밑반찬", 63),
    Category("메인반찬", 56),
    Category("국/탕", 54),
    Category("찌개", 55),
    Category("양식", 65),
    Category("디저트", 60),
    Category("퓨전", 61),
    Category("빵", 66)
  ]

  /** The records held by the successful results, in order; failures are skipped. */
  function Successes(results: seq<Option<Record>>): (rs: seq<Record>)
    ensures |rs| <= |results|
  {
    if results == [] then []
    else
      var last := results[|results| - 1];
      Successes(results[..|results| - 1]) + (if last.Some? then [last.value] else [])
  }

  lemma {:induction false} SuccessesAppend(a: seq<Option<Record>>, b: seq<Option<Record>>)
    ensures Successes(a + b) == Successes(a) + Successes(b)
    decreases |b|
  {
    if b == [] {
      assert a + b == a;
    } else {
      var b' := b[..|b| - 1];
      assert (a + b)[..|a + b| - 1] == a + b';
      SuccessesAppend(a, b');
    }
  }

  lemma {:induction false} SuccessesMembers(results: seq<Option<Record>>, rec: Record)
    ensures rec in Successes(results) <==> exists i :: 0 <= i < |results| && results[i] == Some(rec)
  {
    if results != [] {
      var init := results[..|results| - 1];
      SuccessesMembers(init, rec);
      if exists i :: 0 <= i < |init| && init[i] == Some(rec) {
        var i :| 0 <= i < |init| && init[i] == Some(rec);
        assert results[i] == init[i];
      }
    }
  }

  lemma {:induction false} SuccessesAll(results: seq<Option<Record>>)
    requires forall i :: 0 <= i < |results| ==> results[i].Some?
    ensures |Successes(results)| == |results|
    ensures forall i :: 0 <= i < |results| ==> Successes(results)[i] == results[i].value
  {
    if results != [] {
      SuccessesAll(results[..|results| - 1]);
    }
  }

  /** Every record of the successful results is one of them. */
  lemma {:induction false} SuccessesFrom(results: seq<Option<Record>>, i: int)
    requires 0 <= i < |Successes(results)|
    ensures exists j :: 0 <= j < |results| && results[j] == Some(Successes(results)[i])
  {
    SuccessesMembers(results, Successes(results)[i]);
  }

  /** What `get_recipe_detail` gives for each id, in id order. */
  function Results(ids: seq<string>, categoryName: string, details: string -> Fetch): (res: seq<Option<Record>>)
    ensures |res| == |ids|
    ensures forall i :: 0 <= i < |ids| ==> res[i] == GetRecipeDetail(ids[i], categoryName, details(ids[i]))
  {
    Map(ids, id => GetRecipeDetail(id, categoryName, details(id)))
  }

  /**
   The records of `ids` whose pages were fetched, in id order; an id whose
   request fails is skipped. Each carries the category it was collected under.
   */
  function Accumulate(ids: seq<string>, categoryName: string, details: string -> Fetch): seq<Record> {
    Successes(Results(ids, categoryName, details))
  }

  /**
   No more records than ids; each carries the category it was collected under
   and comes from a fetched page. When the ids are distinct, so are the
   records' ids (`AccumulateDistinct`).
   */
  lemma AccumulateFacts(ids: seq<string>, categoryName: string, details: string -> Fetch)
    ensures var rs := Accumulate(ids, categoryName, details);
      && |rs| <= |ids|
      && forall i :: 0 <= i < |rs| ==> rs[i].category == categoryName && details(rs[i].id).Fetched?
  {
    var res := Results(ids, categoryName, details);
    var rs := Successes(res);
    forall i | 0 <= i < |rs| ensures rs[i].category == categoryName && details(rs[i].id).Fetched? {
      SuccessesFrom(res, i);
    }
  }

  /** Accumulating two runs of ids appends their records. */
  lemma AccumulateAppend(a: seq<string>, b: seq<string>, categoryName: string, details: string -> Fetch)
    ensures Accumulate(a + b, categoryName, details) == Accumulate(a, categoryName, details) + Accumulate(b, categoryName, details)
  {
    MapAppend(a, b, id => GetRecipeDetail(id, categoryName, details(id)));
    SuccessesAppend(Results(a, categoryName, details), Results(b, categoryName, details));
  }

  /** One id gives its record when its page was fetched, and nothing when the request failed. */
  lemma AccumulateSingle(id: string, categoryName: string, details: string -> Fetch)
    ensures Accumulate([id], categoryName, details) ==
      if details(id).Fetched? then [BuildRecord(id, categoryName, details(id).page)] else []
  {
    var res := Results([id], categoryName, details);
    assert res[..0] == [];
  }

  /** A record is accumulated exactly when `get_recipe_detail` returns it for one of the ids. */
  lemma AccumulateMembers(ids: seq<string>, categoryName: string, details: string -> Fetch, rec: Record)
    ensures rec in Accumulate(ids, categoryName, details) <==>
      exists i :: 0 <= i < |ids| && GetRecipeDetail(ids[i], categoryName, details(ids[i])) == Some(rec)
  {
    var res := Results(ids, categoryName, details);
    SuccessesMembers(res, rec);
    if exists i :: 0 <= i < |ids| && GetRecipeDetail(ids[i], categoryName, details(ids[i])) == Some(rec) {
      var i :| 0 <= i < |ids| && GetRecipeDetail(ids[i], categoryName, details(ids[i])) == Some(rec);
      assert res[i] == Some(rec);
    }
  }

  /** No two records carry the same id. */
  predicate DistinctIds(rs: seq<Record>) {
    forall i, j :: 0 <= i < j < |rs| ==> rs[i].id != rs[j].id
  }

  /** Every record accumulated carries one of the ids. */
  lemma AccumulateIdsIn(ids: seq<string>, categoryName: string, details: string -> Fetch, rec: Record)
    requires rec in Accumulate(ids, categoryName, details)
    ensures rec.id in ids
  {
    AccumulateMembers(ids, categoryName, details, rec);
    var i :| 0 <= i < |ids| && GetRecipeDetail(ids[i], categoryName, details(ids[i])) == Some(rec);
  }

  /** Distinct ids, as the enumerator returns them, give at most one record per id. */
  lemma {:induction false} AccumulateDistinct(ids: seq<string>, categoryName: string, details: string -> Fetch)
    requires NoDuplicates(ids)
    ensures DistinctIds(Accumulate(ids, categoryName, details))
  {
    if ids != [] {
      var init, last := ids[..|ids| - 1], ids[|ids| - 1];
      NoDuplicatesPrefix(ids, init);
      AccumulateDistinct(init, categoryName, details);
      assert ids == init + [last];
      AccumulateAppend(init, [last], categoryName, details);
      AccumulateSingle(last, categoryName, details);
      var a, b := Accumulate(init, categoryName, details), Accumulate([last], categoryName, details);
      var rs := Accumulate(ids, categoryName, details);
      assert rs == a + b;
      assert last !in init by {
        forall k | 0 <= k < |init| ensures init[k] != last {
          assert init[k] == ids[k];
        }
      }
      forall i, j | 0 <= i < j < |rs| ensures rs[i].id != rs[j].id {
        if j < |a| {
          assert rs[i] == a[i] && rs[j] == a[j];
        } else {
          assert rs[j] == b[0] && b[0].id == last;
          assert rs[i] == a[i];
          AccumulateIdsIn(init, categoryName, details, a[i]);
        }
      }
    }
  }

  /** When every page is fetched, there is one record per id, in id order. */
  lemma AccumulateAllFetched(ids: seq<string>, categoryName: string, details: string -> Fetch)
    requires forall i :: 0 <= i < |ids| ==> details(ids[i]).Fetched?
    ensures |Accumulate(ids, categoryName, details)| == |ids|
    ensures forall i :: 0 <= i < |ids| ==> Accumulate(ids, categoryName, details)[i].id == ids[i]
  {
    SuccessesAll(Results(ids, categoryName, details));
  }

  /** The records of every category in turn, given the ids enumerated for each. */
  function AccumulateAll(categories: seq<Category>, idsPer: seq<seq<string>>, details: string -> Fetch): seq<Record>
    requires |idsPer| == |categories|
  {
    if categories == [] then []
    else
      var n := |categories| - 1;
      AccumulateAll(categories[..n], idsPer[..n], details) + Accumulate(idsPer[n], categories[n].name, details)
  }

  /**
   `ids` is what the enumerator can return for the listing `pages` after
   requesting some number of pages, at least the first when `maxCount` is
   positive.
   */
  ghost predicate Enumerated(pages: seq<Page>, maxCount: int, ids: seq<string>) {
    exists n: nat :: ids == Take(Dedup(Stream(pages, n)), maxCount) && NoStopBefore(pages, n)
      && (maxCount > 0 ==> 1 <= n)
      && (|ids| < maxCount ==> Stops(PageAt(pages, n)))
  }

  /** A listing whose first page has links never enumerates to nothing. */
  lemma EnumeratedNotEmpty(pages: seq<Page>, ids: seq<string>)
    requires Enumerated(pages, MaxCount, ids) && !Stops(PageAt(pages, 1))
    ensures ids != []
  {
    var n: nat :| ids == Take(Dedup(Stream(pages, n)), MaxCount) && (MaxCount > 0 ==> 1 <= n);
    CollectedNotEmpty(pages, n, MaxCount);
  }

  /** Appending the records of one more category extends the accumulated list. */
  lemma AccumulateAllSnoc(categories: seq<Category>, idsPer: seq<seq<string>>, ids: seq<string>, c: nat, details: string -> Fetch)
    requires c < |categories| && |idsPer| == c
    ensures AccumulateAll(categories[..c + 1], idsPer + [ids], details)
      == AccumulateAll(categories[..c], idsPer, details) + Accumulate(ids, categories[c].name, details)
  {
    var cs, ps := categories[..c + 1], idsPer + [ids];
    assert cs[..c] == categories[..c] && cs[c] == categories[c];
    assert ps[..c] == idsPer && ps[c] == ids;
  }

  /** One category of the crawl: enumerate its ids, then fetch the record of each. */
  method CrawlCategory(category: Category, listing: int -> seq<Page>, details: string -> Fetch)
    returns (ids: seq<string>, recs: seq<Record>)
    ensures Enumerated(listing(category.cat4), MaxCount, ids)
    ensures |recs| <= |ids| <= MaxCount
    ensures NoDuplicates(ids) && DistinctIds(recs)
    ensures recs == Accumulate(ids, category.name, details)
  {
    var pages := listing(category.cat4);
    var requested;
    ids, requested := CollectIds(pages, MaxCount);
    assert ids == Take(Dedup(Stream(pages, requested)), MaxCount) && NoStopBefore(pages, requested) && 1 <= requested;
    recs := Accumulate(ids, category.name, details);
    AccumulateFacts(ids, category.name, details);
    CollectedDistinct(pages, requested, MaxCount);
    AccumulateDistinct(ids, category.name, details);
  }

  /**
   Each category's ids, in turn, are what the enumerator can return for its
   listing, at most `MaxCount` of them; AllEnumeratedAt reads it per category.
   */
  ghost predicate AllEnumerated(categories: seq<Category>, listing: int -> seq<Page>, idsPer: seq<seq<string>>)
    requires |idsPer| <= |categories|
    decreases |idsPer|
  {
    idsPer == [] ||
      var n := |idsPer| - 1;
      && AllEnumerated(categories, listing, idsPer[..n])
      && Enumerated(listing(categories[n].cat4), MaxCount, idsPer[n])
      && |idsPer[n]| <= MaxCount
  }

  lemma AllEnumeratedSnoc(categories: seq<Category>, listing: int -> seq<Page>, idsPer: seq<seq<string>>, ids: seq<string>)
    requires |idsPer| < |categories| && AllEnumerated(categories, listing, idsPer)
    requires Enumerated(listing(categories[|idsPer|].cat4), MaxCount, ids) && |ids| <= MaxCount
    ensures AllEnumerated(categories, listing, idsPer + [ids])
  {
    assert (idsPer + [ids])[..|idsPer|] == idsPer;
  }

  /** The ids of category `c` are what the enumerator can return for its listing. */
  lemma {:induction false} AllEnumeratedAt(categories: seq<Category>, listing: int -> seq<Page>, idsPer: seq<seq<string>>, c: int)
    requires |idsPer| <= |categories| && AllEnumerated(categories, listing, idsPer)
    requires 0 <= c < |idsPer|
    ensures Enumerated(listing(categories[c].cat4), MaxCount, idsPer[c])
    ensures |idsPer[c]| <= MaxCount
    decreases |idsPer|
  {
    var n := |idsPer| - 1;
    if c < n {
      AllEnumeratedAt(categories, listing, idsPer[..n], c);
      assert idsPer[..n][c] == idsPer[c];
    }
  }

  /** The state of the crawl after the first `c` categories. */
  ghost predicate CrawledUpTo(categories: seq<Category>, listing: int -> seq<Page>, details: string -> Fetch,
                              c: nat, all: seq<Record>, idsPer: seq<seq<string>>)
    requires c <= |categories|
  {
    && |idsPer| == c
    && AllEnumerated(categories, listing, idsPer)
    && all == AccumulateAll(categories[..c], idsPer, details)
    && |all| <= MaxCount * c
  }

  /** One turn of the crawl loop: the next category's ids and records are appended. */
  method CrawlNext(categories: seq<Category>, listing: int -> seq<Page>, details: string -> Fetch,
                   c: nat, all: seq<Record>, idsPer: seq<seq<string>>)
    returns (all': seq<Record>, idsPer': seq<seq<string>>)
    requires c < |categories| && CrawledUpTo(categories, listing, details, c, all, idsPer)
    ensures CrawledUpTo(categories, listing, details, c + 1, all', idsPer')
  {
    var ids, recs := CrawlCategory(categories[c], listing, details);
    AccumulateAllSnoc(categories, idsPer, ids, c, details);
    AllEnumeratedSnoc(categories, listing, idsPer, ids);
    all' := all + recs;
    idsPer' := idsPer + [ids];
  }

  /**
   The crawl loop over `categories`, where `listing(cat4)` is the site's
   listing of a category and `details(id)` the request for a recipe page.
   Returns every record collected and, per category, the ids enumerated.
   */
  method Crawl(categories: seq<Category>, listing: int -> seq<Page>, details: string -> Fetch)
    returns (all: seq<Record>, idsPer: seq<seq<string>>)
    ensures |idsPer| == |categories|
    ensures AllEnumerated(categories, listing, idsPer)
    ensures all == AccumulateAll(categories, idsPer, details)
    ensures |all| <= MaxCount * |categories|
  {
    all := [];
    idsPer := [];
    for c := 0 to |categories|
      invariant CrawledUpTo(categories, listing, details, c, all, idsPer)
    {
      all, idsPer := CrawlNext(categories, listing, details, c, all, idsPer);
    }
    assert categories[..|categories|] == categories;
  }

  /** The module-level run: the crawl loop over the eight configured categories, in their listed order. */
  method CrawlConfigured(listing: int -> seq<Page>, details: string -> Fetch)
    returns (all: seq<Record>, idsPer: seq<seq<string>>)
    ensures |idsPer| == |Categories| == 8
    ensures AllEnumerated(Categories, listing, idsPer)
    ensures all == AccumulateAll(Categories, idsPer, details)
    ensures |all| <= 480
  {
    all, idsPer := Crawl(Categories, listing, details);
  }

  /**
   Every record of the crawl was built from the fetched page of an id
   enumerated for some category, and carries that category's name.
   */
  lemma {:induction false} AccumulateAllRecords(categories: seq<Category>, idsPer: seq<seq<string>>, details: string -> Fetch, rec: Record)
    requires |idsPer| == |categories|
    requires rec in AccumulateAll(categories, idsPer, details)
    ensures details(rec.id).Fetched?
    ensures exists c :: 0 <= c < |categories| && rec.category == categories[c].name && rec.id in idsPer[c]
  {
    var n := |categories| - 1;
    var init := AccumulateAll(categories[..n], idsPer[..n], details);
    if rec in init {
      AccumulateAllRecords(categories[..n], idsPer[..n], details, rec);
      var c :| 0 <= c < n && rec.category == categories[..n][c].name && rec.id in idsPer[..n][c];
      assert categories[..n][c] == categories[c] && idsPer[..n][c] == idsPer[c];
    } else {
      AccumulateMembers(idsPer[n], categories[n].name, details, rec);
      var i :| 0 <= i < |idsPer[n]| && GetRecipeDetail(idsPer[n][i], categories[n].name, details(idsPer[n][i])) == Some(rec);
      assert rec.id == idsPer[n][i];
    }
  }

  /** The table: the stored record of each id. */
  type Table = map<string, Record>

  /** `INSERT OR REPLACE` of each record in turn, keyed by its id. */
  function Upsert(table: Table, records: seq<Record>): Table {
    if records == [] then table
    else
      var last := records[|records| - 1];
      Upsert(table, records[..|records| - 1])[last.id := last]
  }

  /** The last record in `records` with id `k`, if any: the reference for what the table ends up holding. */
  function LastWith(records: seq<Record>, k: string): (r: Option<Record>)
    ensures r.Some? ==> r.value.id == k
  {
    if records == [] then None
    else if records[|records| - 1].id == k then Some(records[|records| - 1])
    else LastWith(records[..|records| - 1], k)
  }

  /** `LastWith` finds the record at the last index carrying the id, and nothing when no record does. */
  lemma {:induction false} LastWithIndex(records: seq<Record>, k: string, i: int)
    requires 0 <= i < |records| && records[i].id == k
    requires forall j :: i < j < |records| ==> records[j].id != k
    ensures LastWith(records, k) == Some(records[i])
  {
    if i < |records| - 1 {
      LastWithIndex(records[..|records| - 1], k, i);
    }
  }

  lemma {:induction false} LastWithNone(records: seq<Record>, k: string)
    ensures LastWith(records, k).None? <==> forall j :: 0 <= j < |records| ==> records[j].id != k
  {
    if records != [] {
      var init := records[..|records| - 1];
      LastWithNone(init, k);
      assert forall j :: 0 <= j < |init| ==> init[j] == records[j];
    }
  }

  /**
   After the upserts, an id is in the table exactly when it was before or
   some record carries it; it holds the last such record, or what it held
   before when no record carries it.
   */
  lemma {:induction false} UpsertLookup(table: Table, records: seq<Record>, k: string)
    ensures k in Upsert(table, records) <==> k in table || LastWith(records, k).Some?
    ensures k in Upsert(table, records) ==>
      Upsert(table, records)[k] == if LastWith(records, k).Some? then LastWith(records, k).value else table[k]
  {
    if records != [] {
      UpsertLookup(table, records[..|records| - 1], k);
    }
  }

  /** Each id ends up holding the last record carrying it. */
  lemma UpsertLastWins(table: Table, records: seq<Record>, i: int)
    requires 0 <= i < |records|
    requires forall j :: i < j < |records| ==> records[j].id != records[i].id
    ensures records[i].id in Upsert(table, records)
    ensures Upsert(table, records)[records[i].id] == records[i]
  {
    LastWithIndex(records, records[i].id, i);
    UpsertLookup(table, records, records[i].id);
  }

  /** Ids no record carries keep what they held, and stay absent when absent. */
  lemma UpsertUntouched(table: Table, records: seq<Record>, k: string)
    requires forall j :: 0 <= j < |records| ==> records[j].id != k
    ensures k in Upsert(table, records) <==> k in table
    ensures k in table ==> Upsert(table, records)[k] == table[k]
  {
    LastWithNone(records, k);
    UpsertLookup(table, records, k);
  }

  /** Upserting the same records a second time leaves the table unchanged. */
  lemma UpsertIdempotent(table: Table, records: seq<Record>)
    ensures Upsert(Upsert(table, records), records) == Upsert(table, records)
  {
    var once := Upsert(table, records);
    var twice := Upsert(once, records);
    forall k ensures (k in twice <==> k in once) && (k in twice ==> twice[k] == once[k]) {
      UpsertLookup(table, records, k);
      UpsertLookup(once, records, k);
    }
  }

  /** Upserting two runs of records is upserting the first run, then the second. */
  lemma {:induction false} UpsertAppend(table: Table, a: seq<Record>, b: seq<Record>)
    ensures Upsert(table, a + b) == Upsert(Upsert(table, a), b)
    decreases |b|
  {
    if b == [] {
      assert a + b == a;
    } else {
      var b' := b[..|b| - 1];
      assert (a + b)[..|a + b| - 1] == a + b';
      UpsertAppend(table, a, b');
    }
  }

  /** Every row is stored under its own id, if that held before the upserts. */
  lemma UpsertKeyedById(table: Table, records: seq<Record>)
    requires forall k :: k in table ==> table[k].id == k
    ensures forall k :: k in Upsert(table, records) ==> Upsert(table, records)[k].id == k
  {
    forall k | k in Upsert(table, records) ensures Upsert(table, records)[k].id == k {
      UpsertLookup(table, records, k);
    }
  }

  /** The table holds at most one row per distinct id, whatever the number of records. */
  lemma {:induction false} UpsertKeys(table: Table, records: seq<Record>)
    ensures Upsert(table, records).Keys == table.Keys + set j | 0 <= j < |records| :: records[j].id
  {
    if records != [] {
      var init := records[..|records| - 1];
      UpsertKeys(table, init);
      var s := set j | 0 <= j < |records| :: records[j].id;
      var s' := set j | 0 <= j < |init| :: init[j].id;
      assert s == s' + {records[|records| - 1].id} by {
        forall x | x in s ensures x in s' + {records[|records| - 1].id} {
          var j :| 0 <= j < |records| && records[j].id == x;
          if j < |init| {
            assert init[j].id == x;
          }
        }
        forall x | x in s' ensures x in s {
          var j :| 0 <= j < |init| && init[j].id == x;
          assert records[j].id == x;
        }
      }
    }
  }
}
