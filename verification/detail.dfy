/**
 The detail-record builder `get_recipe_detail` (crawler/recipes_crawl.py:68-115)
 over an already parsed recipe page: each region the page may lack falls
 back to its own default, ingredient items become a name-to-amount map, and
 step texts become a list of trimmed non-blank steps.
 */
module Detail {
  import opened Wrappers
  import opened Text
  import opened Ingredient
  import opened Serving
  import opened Seqs

  /** The title recorded when the page has no title region ("no title"). */
  const NoTitle: string := "제목 없음"

  /**
   A recipe page after parsing: the text of each summary region it has (the
   image region gives the `src` attribute of its image, absent when the
   image or the attribute is missing), then the texts of the ingredient
   items and of the steps in page order.
   */
  datatype DetailPage = DetailPage(
    title: Option<string>,
    info1: Option<string>,
    imageSrc: Option<string>,
    info2: Option<string>,
    info3: Option<string>,
    ingredientItems: seq<string>,
    stepTexts: seq<string>)

  /** What the request for one recipe page yields. */
  datatype Fetch = FetchFailed | Fetched(page: DetailPage)

  /** One recipe, with the fields of the dictionary the builder returns. */
  datatype Record = Record(
    id: string,
    title: string,
    category: string,
    serving: string,
    imageUrl: string,
    cookTime: string,
    difficulty: string,
    ingredients: map<string, string>,
    steps: seq<string>)

  /** The trimmed text of a region, or `default` when the page lacks it. */
  function RegionText(region: Option<string>, default: string): string {
    match region
    case Some(text) => Strip(text)
    case None => default
  }

  /**
   What one ingredient item contributes: nothing for a blank item or one
   the normaliser rejects or leaves with an empty name or amount, otherwise
   the normalised (name, amount) pair.
   */
  function Entry(item: string): (e: Option<(string, string)>)
    ensures e.Some? ==> e.value.0 != [] && e.value.1 != []
  {
    if Strip(item) == [] then None
    else
      match CleanIngredient(item)
      case None => None
      case Some((name, amount)) => if name != [] && amount != [] then Some((name, amount)) else None
  }

  /** A blank item contributes nothing. */
  lemma EntryOfBlank(item: string)
    requires AllSpace(item)
    ensures Entry(item) == None
  {
    CleanIngredientBlank(item);
  }

  /**
   An item contributes a pair exactly when the normaliser gives that pair
   with a non-empty amount (the name it gives is never empty).
   */
  lemma EntryOfCleaned(item: string, name: string, amount: string)
    ensures Entry(item) == Some((name, amount)) <==> CleanIngredient(item) == Some((name, amount)) && amount != []
  {
    if Strip(item) == [] {
      StripEmptyIffAllSpace(item);
      CleanIngredientBlank(item);
    }
  }

  /** The entries of the items, in page order. */
  function Entries(items: seq<string>): (es: seq<Option<(string, string)>>)
    ensures |es| == |items|
    ensures forall i :: 0 <= i < |items| ==> es[i] == Entry(items[i])
  {
    seq(|items|, i requires 0 <= i < |items| => Entry(items[i]))
  }

  /** `ingredient_dict[name] = amount` for an entry; nothing for no entry. */
  function Put(m: map<string, string>, e: Option<(string, string)>): map<string, string> {
    if e.None? then m else m[e.value.0 := e.value.1]
  }

  /** The map left after inserting the entries in order, later names overwriting earlier ones. */
  function Insert(es: seq<Option<(string, string)>>): map<string, string> {
    if es == [] then map[] else Put(Insert(es[..|es| - 1]), es[|es| - 1])
  }

  /** Entry `i` is present and named `k`. */
  predicate Named(es: seq<Option<(string, string)>>, i: int, k: string) {
    0 <= i < |es| && es[i].Some? && es[i].value.0 == k
  }

  lemma {:induction false} InsertKeySource(es: seq<Option<(string, string)>>, k: string)
    requires k in Insert(es)
    ensures exists i :: 0 <= i < |es| && es[i] == Some((k, Insert(es)[k]))
  {
    var init := es[..|es| - 1];
    var e := es[|es| - 1];
    if e.Some? && e.value.0 == k {
      assert es[|es| - 1] == Some((k, Insert(es)[k]));
    } else {
      assert Insert(es)[k] == Insert(init)[k];
      InsertKeySource(init, k);
      var i :| 0 <= i < |init| && init[i] == Some((k, Insert(init)[k]));
      assert es[i] == init[i];
    }
  }

  lemma {:induction false} InsertKeyKept(es: seq<Option<(string, string)>>, i: int, k: string)
    requires Named(es, i, k)
    ensures k in Insert(es)
  {
    var init := es[..|es| - 1];
    if i < |init| {
      assert Named(init, i, k);
      InsertKeyKept(init, i, k);
    }
  }

  lemma {:induction false} InsertLastWins(es: seq<Option<(string, string)>>, i: nat, name: string, amount: string)
    requires i < |es| && es[i] == Some((name, amount))
    requires forall j :: i < j < |es| ==> !Named(es, j, name)
    ensures name in Insert(es) && Insert(es)[name] == amount
  {
    var init := es[..|es| - 1];
    if i < |es| - 1 {
      assert !Named(es, |es| - 1, name);
      forall j | i < j < |init| ensures !Named(init, j, name) {
        assert !Named(es, j, name);
      }
      InsertLastWins(init, i, name, amount);
    }
  }

  /** The ingredient map: each item's pair inserted in page order, later names overwriting earlier ones. */
  function Ingredients(items: seq<string>): map<string, string> {
    Insert(Entries(items))
  }

  /** Item `i` contributes an entry named `k`. */
  predicate NamesAt(items: seq<string>, i: int, k: string) {
    0 <= i < |items| && Entry(items[i]).Some? && Entry(items[i]).value.0 == k
  }

  lemma NamesAtNamed(items: seq<string>, i: int, k: string)
    ensures NamesAt(items, i, k) <==> Named(Entries(items), i, k)
  {
  }

  /** A name is in the map exactly when some item contributes an entry with that name. */
  lemma IngredientsKeys(items: seq<string>, k: string)
    ensures k in Ingredients(items) <==> exists i :: NamesAt(items, i, k)
  {
    var es := Entries(items);
    if k in Ingredients(items) {
      InsertKeySource(es, k);
      var i :| 0 <= i < |es| && es[i] == Some((k, Insert(es)[k]));
      assert Named(es, i, k);
      NamesAtNamed(items, i, k);
    }
    forall i | NamesAt(items, i, k) ensures k in Ingredients(items) {
      NamesAtNamed(items, i, k);
      InsertKeyKept(es, i, k);
    }
  }

  /** Every stored pair is the entry of some item, so names and amounts are never empty. */
  lemma IngredientsFromItems(items: seq<string>, k: string)
    requires k in Ingredients(items)
    ensures exists i :: 0 <= i < |items| && Entry(items[i]) == Some((k, Ingredients(items)[k]))
    ensures k != [] && Ingredients(items)[k] != []
  {
    var es := Entries(items);
    InsertKeySource(es, k);
    var i :| 0 <= i < |es| && es[i] == Some((k, Insert(es)[k]));
    assert Entry(items[i]) == es[i];
  }

  /** The amount stored under a name is the one from the last item contributing that name. */
  lemma IngredientsLastWins(items: seq<string>, i: nat, name: string, amount: string)
    requires i < |items| && Entry(items[i]) == Some((name, amount))
    requires forall j :: i < j < |items| ==> !NamesAt(items, j, name)
    ensures name in Ingredients(items) && Ingredients(items)[name] == amount
  {
    var es := Entries(items);
    forall j | i < j < |es| ensures !Named(es, j, name) {
      assert !NamesAt(items, j, name);
    }
    InsertLastWins(es, i, name, amount);
  }

  /** Each text trimmed, in order. */
  function Trims(texts: seq<string>): (ts: seq<string>)
    ensures |ts| == |texts|
    ensures forall i :: 0 <= i < |texts| ==> ts[i] == Strip(texts[i])
  {
    Map(texts, Strip)
  }

  /** The non-empty texts, in order. */
  function NonBlank(ts: seq<string>): (r: seq<string>)
    ensures |r| <= |ts|
  {
    if ts == [] then []
    else
      var t := ts[|ts| - 1];
      NonBlank(ts[..|ts| - 1]) + (if t != [] then [t] else [])
  }

  lemma {:induction false} NonBlankAppend(a: seq<string>, b: seq<string>)
    ensures NonBlank(a + b) == NonBlank(a) + NonBlank(b)
    decreases |b|
  {
    if b == [] {
      assert a + b == a;
    } else {
      var b' := b[..|b| - 1];
      assert (a + b)[..|a + b| - 1] == a + b';
      NonBlankAppend(a, b');
    }
  }

  lemma {:induction false} NonBlankMembers(ts: seq<string>, x: string)
    ensures x in NonBlank(ts) <==> x != [] && x in ts
  {
    if ts != [] {
      var init := ts[..|ts| - 1];
      NonBlankMembers(init, x);
      assert ts == init + [ts[|ts| - 1]];
    }
  }

  lemma {:induction false} NonBlankOfFull(ts: seq<string>)
    requires forall i :: 0 <= i < |ts| ==> ts[i] != []
    ensures NonBlank(ts) == ts
  {
    if ts != [] {
      var init := ts[..|ts| - 1];
      NonBlankOfFull(init);
      assert init + [ts[|ts| - 1]] == ts;
    }
  }

  /** The trimmed non-blank step texts, in page order. */
  function Steps(texts: seq<string>): (r: seq<string>)
    ensures |r| <= |texts|
    ensures forall i :: 0 <= i < |r| ==> r[i] != [] && IsTrimmed(r[i])
  {
    var ts := Trims(texts);
    var r := NonBlank(ts);
    assert forall i :: 0 <= i < |r| ==> r[i] != [] && IsTrimmed(r[i]) by {
      forall i | 0 <= i < |r| ensures r[i] != [] && IsTrimmed(r[i]) {
        NonBlankMembers(ts, r[i]);
        var j :| 0 <= j < |ts| && ts[j] == r[i];
      }
    }
    r
  }

  /** The steps of two runs of texts are the steps of each, in order. */
  lemma StepsAppend(a: seq<string>, b: seq<string>)
    ensures Steps(a + b) == Steps(a) + Steps(b)
  {
    MapAppend(a, b, Strip);
    NonBlankAppend(Trims(a), Trims(b));
  }

  /** A single text gives its trimmed form when that is non-blank, and no step otherwise. */
  lemma StepsSingle(text: string)
    ensures Steps([text]) == if Strip(text) != [] then [Strip(text)] else []
  {
    assert Trims([text])[..0] == [];
  }

  /** Step `x` is listed exactly when some step text trims to it and it is not blank. */
  lemma StepsMembers(texts: seq<string>, x: string)
    ensures x in Steps(texts) <==> x != [] && exists i :: 0 <= i < |texts| && Strip(texts[i]) == x
  {
    var ts := Trims(texts);
    NonBlankMembers(ts, x);
    if x in ts {
      var i :| 0 <= i < |ts| && ts[i] == x;
      assert Strip(texts[i]) == x;
    }
    if exists i :: 0 <= i < |texts| && Strip(texts[i]) == x {
      var i :| 0 <= i < |texts| && Strip(texts[i]) == x;
      assert ts[i] == x;
    }
  }

  /** Texts that are already trimmed and non-blank are kept as they are. */
  lemma StepsOfClean(texts: seq<string>)
    requires forall i :: 0 <= i < |texts| ==> texts[i] != [] && IsTrimmed(texts[i])
    ensures Steps(texts) == texts
  {
    var ts := Trims(texts);
    forall i | 0 <= i < |texts| ensures ts[i] == texts[i] {
      StripTrimmed(texts[i]);
    }
    assert ts == texts;
    NonBlankOfFull(texts);
  }

  /** The record built from a page that was fetched. */
  function BuildRecord(recipeId: string, categoryName: string, page: DetailPage): (rec: Record)
    ensures rec.id == recipeId && rec.category == categoryName
  {
    Record(
      recipeId,
      RegionText(page.title, NoTitle),
      categoryName,
      ExtractServing(RegionText(page.info1, "")),
      page.imageSrc.GetOr(""),
      RegionText(page.info2, ""),
      RegionText(page.info3, ""),
      Ingredients(page.ingredientItems),
      Steps(page.stepTexts))
  }

  /**
   `get_recipe_detail(recipe_id, category_name)` given what the request
   for the recipe page yields: nothing when the request fails, otherwise
   the record, carrying the id and category it was asked for.
   */
  function GetRecipeDetail(recipeId: string, categoryName: string, fetch: Fetch): (r: Option<Record>)
    ensures r.None? <==> fetch.FetchFailed?
    ensures r.Some? ==> r.value.id == recipeId && r.value.category == categoryName
    ensures r.Some? ==> r.value.ingredients == Ingredients(fetch.page.ingredientItems)
    ensures r.Some? ==> r.value.steps == Steps(fetch.page.stepTexts)
    ensures r.Some? ==> var page := fetch.page;
      && (page.title.Some? ==> r.value.title == Strip(page.title.value))
      && r.value.serving == ExtractServing(if page.info1.Some? then Strip(page.info1.value) else "")
      && (page.imageSrc.Some? ==> r.value.imageUrl == page.imageSrc.value)
      && (page.info2.Some? ==> r.value.cookTime == Strip(page.info2.value))
      && (page.info3.Some? ==> r.value.difficulty == Strip(page.info3.value))
  {
    match fetch
    case FetchFailed => None
    case Fetched(page) => Some(BuildRecord(recipeId, categoryName, page))
  }

  /** Whatever the page holds, the title, serving, cook time and difficulty are trimmed. */
  lemma RecordTextsTrimmed(recipeId: string, categoryName: string, page: DetailPage)
    ensures var rec := BuildRecord(recipeId, categoryName, page);
      IsTrimmed(rec.title) && IsTrimmed(rec.serving) && IsTrimmed(rec.cookTime) && IsTrimmed(rec.difficulty)
  {
    var rec := BuildRecord(recipeId, categoryName, page);
    assert rec.title == RegionText(page.title, NoTitle);
    assert rec.serving == ExtractServing(RegionText(page.info1, ""));
    ServingTrimmed(RegionText(page.info1, ""));
    NoTitleTrimmed();
  }

  lemma NoTitleTrimmed()
    ensures IsTrimmed(NoTitle)
  {
    assert !IsSpace(NoTitle[0]) && !IsSpace(NoTitle[|NoTitle| - 1]);
  }

  /** Each region the page lacks falls back to its own default. */
  lemma RecordDefaults(recipeId: string, categoryName: string, page: DetailPage)
    ensures var rec := BuildRecord(recipeId, categoryName, page);
      && (page.title.None? ==> rec.title == NoTitle)
      && (page.info1.None? ==> rec.serving == "")
      && (page.imageSrc.None? ==> rec.imageUrl == "")
      && (page.info2.None? ==> rec.cookTime == "")
      && (page.info3.None? ==> rec.difficulty == "")
      && (page.ingredientItems == [] ==> rec.ingredients == map[])
      && (page.stepTexts == [] ==> rec.steps == [])
  {
    ServingOfEmpty();
  }

  /** A fetched page with no regions at all gives the all-defaults record. */
  lemma EmptyPageRecord(recipeId: string, categoryName: string)
    ensures GetRecipeDetail(recipeId, categoryName,
      Fetched(DetailPage(None, None, None, None, None, [], []))) ==
      Some(Record(recipeId, NoTitle, categoryName, "", "", "", "", map[], []))
  {
    ServingOfEmpty();
  }
}
