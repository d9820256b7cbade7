# Recipe crawler core, modelled in Dafny

This project models the core of the recipe crawler in
`crawler/recipes_crawl.py`. It covers the text normalisers, the listing
enumerator, the detail-record builder, and the crawl-and-store loops. It
states and proves what each promises.

- **`clean_ingredient`** (module `Ingredient`). The model removes the
  "구매" (purchase) marker in one left-to-right pass, as `str.replace`
  does, then trims. It splits on `\n{2,}|\s{2,}`, modelled as a
  leftmost scanner that tries the first alternative first. It keeps the
  first two pieces as `(name, amount)`. The split is also described
  declaratively (`IsRegexSplit`). The scanner is proved to produce the
  only split of that shape.
- **`extract_serving`** (module `Serving`). It returns the leftmost match of
  `\d+\s*인분`, or the trimmed text when there is none. Matches are
  described declaratively (`MatchSpan`, `LeftmostMatch`), and the greedy
  matcher is proved to agree with that description.
- **`get_recipe_ids_by_cat4`** (module `Listing`). The site is a sequence of
  listing pages. Each page is either a failed request or the hrefs of its
  recipe links. The enumerator walks pages from 1 and adds ids in order until
  it holds `max_count` distinct ids, a request fails, or a page has no links.
- **`get_recipe_detail`** (module `Detail`). The input is either a failed
  request or the parsed page. The parsed page is the text of each summary
  region (each may be absent), the image `src`, the ingredient item texts
  and the step texts. The output is the record, with each default the
  source uses.
- **The crawl loop and the `INSERT OR REPLACE` loop** (module `Store`). The
  listing per category and the request per recipe id are parameters. The
  table is a map from id to record.

Whitespace is Python's `str.isspace()` set, which `str.strip()` and the
regular-expression class `\s` share (module `Text`).

An href that ends in `/` gives the empty id, because `href.split("/")[-1]`
is then `""`, so an id can be empty. `Listing.LastSegmentOfDirectory`
states this.

One behaviour of the split is easy to miss. An ingredient line whose name is
followed by a blank line and then spaces (`"양파\n\n  1개"`) splits into three
pieces. The middle piece is empty, so the line yields no entry.
`Ingredient.CleanIngredientNewlinesThenSpaces` states this.

## Model

| member | source | states |
|---|---|---|
| Text.Strip | crawler/recipes_crawl.py:28 | `str.strip()`: the result is never longer than the text and has no whitespace at either end; StripSurrounded and StripUnique pin it down as the one such piece with only whitespace around it |
| Text.StripSurrounded | crawler/recipes_crawl.py:28 | `strip()` keeps a piece of the text that has only whitespace before and after it |
| Text.StripUnique | crawler/recipes_crawl.py:28 | any trimmed piece with only whitespace around it is what `strip()` returns, so `strip()` is fully determined by that description |
| Text.StripIdempotent | crawler/recipes_crawl.py:31-32 | stripping a stripped piece again changes nothing |
| Text.StripEmptyIffAllSpace | crawler/recipes_crawl.py:98 | `item.text.strip()` is empty exactly when the item text is all whitespace |
| Text.StripTrimmed | crawler/recipes_crawl.py:28 | text with no whitespace at either end is returned unchanged |
| Ingredient.RemoveMarker | crawler/recipes_crawl.py:28 | `replace("구매", "")` never lengthens the text and leaves text without the marker unchanged |
| Ingredient.RemoveMarkerKeepsChars | crawler/recipes_crawl.py:28 | the removal only deletes characters: the result's characters are a sub-multiset of the input's |
| Ingredient.RemoveMarkerDropsOne | crawler/recipes_crawl.py:28 | one marker occurrence disappears, and the text on both sides is processed independently |
| Ingredient.RemoveMarkerKeepsBlank | crawler/recipes_crawl.py:28 | all-whitespace text passes through the removal unchanged |
| Ingredient.RemoveMarkerNotIdempotent | crawler/recipes_crawl.py:28 | one pass is not a fixed point: "구구매매" becomes "구매", which a second pass would empty |
| Ingredient.Split | crawler/recipes_crawl.py:29 | the pieces and separators re-join to the text, and there are at least two pieces exactly when the text holds a whitespace pair |
| Ingredient.SplitIsRegexSplit | crawler/recipes_crawl.py:29 | the scanner's split has the shape `re.split` gives: no piece holds a whitespace pair, and each separator starts at the first pair and is a `\n{2,}` run or a maximal `\s{2,}` run |
| Ingredient.RegexSplitUnique | crawler/recipes_crawl.py:29 | that shape has exactly one solution, the scanner's |
| Ingredient.FindSeparatorLeftmost | crawler/recipes_crawl.py:29 | the scanner finds the leftmost whitespace pair |
| Ingredient.CleanIngredient | crawler/recipes_crawl.py:27-34 | no pair exactly when the cleaned text has no whitespace pair. Otherwise the pair is the first two pieces, stripped, of a regex-shaped split of the cleaned text; the name is the non-empty text before the first whitespace pair |
| Ingredient.NameIsLead | crawler/recipes_crawl.py:29-31 | in trimmed text with a whitespace pair, the first piece is non-empty, already trimmed, and ends where the first pair starts |
| Ingredient.CleanIngredientOfSplit | crawler/recipes_crawl.py:29-33 | any regex-shaped split with two or more pieces determines the returned pair |
| Ingredient.CleanIngredientNoneIffOnePiece | crawler/recipes_crawl.py:29-34 | no pair exactly when the split of the cleaned text has fewer than two pieces |
| Ingredient.CleanIngredientBlank | crawler/recipes_crawl.py:28-34 | a blank line gives no pair |
| Ingredient.Cleaned | crawler/recipes_crawl.py:28 | `text.replace("구매", "").strip()`: trimmed and never longer than the text; CleanedUnchanged and RemoveMarkerKeepsBlank describe what it keeps |
| Ingredient.CleanedUnchanged | crawler/recipes_crawl.py:28 | trimmed text without the marker is split as it is |
| Ingredient.CleanIngredientSpaces | crawler/recipes_crawl.py:27-34 | "양파  1개 구매" gives ("양파", "1개") |
| Ingredient.CleanIngredientMarkerThenNewlines | crawler/recipes_crawl.py:27-34 | a leading marker is dropped and a blank line separates name and amount: "구매\nAAA\n\nBBB" gives ("AAA", "BBB") |
| Ingredient.CleanIngredientNoSpace | crawler/recipes_crawl.py:29-34 | text without any whitespace gives no pair |
| Ingredient.CleanIngredientNewlinesThenSpaces | crawler/recipes_crawl.py:29-33 | "양파\n\n  1개" gives ("양파", ""): the blank line and the spaces are two separate separators |
| Serving.MatchLenExact | crawler/recipes_crawl.py:38 | the pattern matches at a position exactly when the greedy matcher reports a match there |
| Serving.MatchLenComplete | crawler/recipes_crawl.py:38 | a match at a position has the length the greedy matcher reports |
| Serving.MatchStartsWithDigit | crawler/recipes_crawl.py:38 | every match starts with a digit |
| Serving.Search | crawler/recipes_crawl.py:38 | `re.search`: a reported position has a match of the reported non-zero length and no match starts earlier; when nothing is reported no position matches |
| Serving.SearchFindsLeftmost | crawler/recipes_crawl.py:38 | what the search finds is a match, and no match starts earlier |
| Serving.SearchFindsNone | crawler/recipes_crawl.py:38 | when the search finds nothing, the pattern matches nowhere |
| Serving.ExtractServing | crawler/recipes_crawl.py:37-39 | the leftmost match when the pattern occurs, otherwise the stripped text |
| Serving.LeftmostMatchUnique | crawler/recipes_crawl.py:38-39 | the leftmost match is unique, so the contract of `ExtractServing` determines its result |
| Serving.ServingAtStart | crawler/recipes_crawl.py:37-39 | text starting with digits, whitespace and "인분" gives exactly that prefix |
| Serving.ServingWithoutDigits | crawler/recipes_crawl.py:39 | text without digits falls back to the stripped text |
| Serving.ServingTrimmed | crawler/recipes_crawl.py:37-39 | the serving text never starts or ends with whitespace |
| Serving.ServingOfEmpty | crawler/recipes_crawl.py:39 | an empty summary gives an empty serving |
| Listing.LastSegment | crawler/recipes_crawl.py:59 | the id holds no '/' |
| Listing.LastSegmentSuffix | crawler/recipes_crawl.py:59 | the id is a suffix of the href, preceded by '/' unless it is the whole href |
| Listing.LastSegmentOfPath | crawler/recipes_crawl.py:59 | `.../<id>` gives `<id>` |
| Listing.LastSegmentOfDirectory | crawler/recipes_crawl.py:59 | an href ending in '/' gives the empty id |
| Listing.IdsOn | crawler/recipes_crawl.py:55-59 | one id per link, in page order, each the last path segment of its href; a failed request gives none |
| Listing.StreamProvenance | crawler/recipes_crawl.py:55-60 | every id met on pages 1..n comes from some link on one of them |
| Listing.Dedup | crawler/recipes_crawl.py:43-60 | the `ids` set, listed in first-occurrence order: no id twice and no longer than the ids read; DedupMembers gives its members and DedupSnoc how it grows |
| Listing.DedupMembers | crawler/recipes_crawl.py:43-60 | the set of ids holds exactly the ids added |
| Listing.DedupSnoc | crawler/recipes_crawl.py:60 | `ids.add(rid)` grows the collection exactly when `rid` is new |
| Listing.DedupPrefix | crawler/recipes_crawl.py:58-63 | reading further links only adds ids |
| Listing.AddLinks | crawler/recipes_crawl.py:58-62 | after the link loop of one page, the ids are the distinct ids of everything read so far; the loop reads every link unless `max_count` ids are reached |
| Listing.StreamAtStop | crawler/recipes_crawl.py:50-57 | a failed or empty page contributes no ids |
| Listing.ReadPage | crawler/recipes_crawl.py:46-64 | one page's turn: a failed or link-less page ends the enumeration with the ids held; otherwise its links are added until `max_count` ids are held, which also ends it, or the loop goes on to the next page with every id read so far |
| Listing.CollectIds | crawler/recipes_crawl.py:42-65 | the result is the first `max_count` distinct ids of pages 1..requested. No earlier page failed or was empty. Fewer than `max_count` ids means the last page requested failed or was empty. A non-positive `max_count` requests nothing, and no page is requested after `max_count` ids are held |
| Listing.CollectedDistinct | crawler/recipes_crawl.py:43-65 | the ids returned hold no duplicate and are at most `max_count` |
| Listing.StreamStartsWithFirstPage | crawler/recipes_crawl.py:44-60 | the ids of page 1 come first in what the enumerator reads |
| Listing.CollectedNotEmpty | crawler/recipes_crawl.py:44-62 | when page 1 has links and `max_count` is positive, at least one id is collected |
| Listing.CollectedWereSeen | crawler/recipes_crawl.py:55-65 | every id returned comes from a link on a page that was requested |
| Detail.Entry | crawler/recipes_crawl.py:97-101 | an item stores a pair only when both name and amount are non-empty |
| Detail.EntryOfBlank | crawler/recipes_crawl.py:98 | a blank item stores nothing |
| Detail.EntryOfCleaned | crawler/recipes_crawl.py:97-101 | an item stores a pair exactly when `clean_ingredient` gives that pair with a non-empty amount |
| Detail.Ingredients | crawler/recipes_crawl.py:95-101 | the `ingredient_dict` loop: each item's pair inserted in page order; described by IngredientsKeys, IngredientsFromItems and IngredientsLastWins |
| Detail.IngredientsKeys | crawler/recipes_crawl.py:95-101 | a name is in the ingredient map exactly when some item stores a pair with that name |
| Detail.IngredientsFromItems | crawler/recipes_crawl.py:95-101 | every map entry is the pair of some item, so names and amounts are never empty |
| Detail.IngredientsLastWins | crawler/recipes_crawl.py:101 | the amount kept for a name is the one from the last item storing that name |
| Detail.InsertLastWins | crawler/recipes_crawl.py:96-101 | assigning pairs in order leaves each name with its last assigned value |
| Detail.NonBlankMembers | crawler/recipes_crawl.py:103 | the filter keeps exactly the non-empty texts |
| Detail.Steps | crawler/recipes_crawl.py:103 | every step is non-empty and trimmed, and there are no more steps than step texts |
| Detail.StepsAppend | crawler/recipes_crawl.py:103 | the steps of two runs of step texts are the steps of each, in order |
| Detail.StepsSingle | crawler/recipes_crawl.py:103 | one step text gives its stripped form, or nothing when that is empty |
| Detail.StepsMembers | crawler/recipes_crawl.py:103 | a step is listed exactly when it is non-empty and some step text strips to it |
| Detail.StepsOfClean | crawler/recipes_crawl.py:103 | trimmed non-empty step texts are kept as they are |
| Detail.GetRecipeDetail | crawler/recipes_crawl.py:68-115 | no record exactly when the request fails. Otherwise the record carries the requested id and category, the ingredient map of the page's items and the steps of its step texts. A present title, cook time or difficulty region gives its stripped text, a present image `src` is kept as is, and the serving is `extract_serving` of the stripped summary text (of "" when the region is missing) |
| Detail.RecordTextsTrimmed | crawler/recipes_crawl.py:79-93 | title, serving, cook time and difficulty never start or end with whitespace |
| Detail.RecordDefaults | crawler/recipes_crawl.py:79-103 | each missing region falls back to its default: "제목 없음" for the title, "" for serving, image, cook time and difficulty, and an empty map or list for ingredients and steps |
| Detail.EmptyPageRecord | crawler/recipes_crawl.py:68-115 | a fetched page with nothing on it gives the all-defaults record |
| Store.SuccessesMembers | crawler/recipes_crawl.py:129-130 | a record is appended exactly when it is the result of some call |
| Store.Accumulate | crawler/recipes_crawl.py:125-130 | the records of one category's ids whose pages were fetched, in id order; described by AccumulateFacts, AccumulateMembers, AccumulateAppend and AccumulateDistinct |
| Store.AccumulateFacts | crawler/recipes_crawl.py:125-130 | no more records than ids. Each record carries the category it was collected under, and its page was fetched |
| Store.AccumulateIdsIn | crawler/recipes_crawl.py:125-130 | every record collected carries one of the ids |
| Store.AccumulateDistinct | crawler/recipes_crawl.py:65-130 | distinct ids, as `list(ids)` of a set gives them, yield at most one record per id |
| Store.AccumulateAppend | crawler/recipes_crawl.py:125-130 | collecting two runs of ids appends their records |
| Store.AccumulateSingle | crawler/recipes_crawl.py:128-130 | one id adds its record when its page is fetched, and nothing otherwise |
| Store.AccumulateMembers | crawler/recipes_crawl.py:125-130 | a record is collected exactly when `get_recipe_detail` returns it for one of the ids |
| Store.AccumulateAllFetched | crawler/recipes_crawl.py:125-130 | when every page is fetched, there is one record per id, in id order |
| Store.EnumeratedNotEmpty | crawler/recipes_crawl.py:44-60 | page 1 is always requested, so a listing whose first page has links never enumerates to no ids |
| Store.CrawlCategory | crawler/recipes_crawl.py:122-130 | the category's ids are an enumerator result for its listing (page 1 requested), at most 60 of them and distinct. Its records are those of the ids whose pages were fetched, one per id |
| Store.AllEnumeratedAt | crawler/recipes_crawl.py:120-122 | the ids of each category are an enumerator result for that category's listing, at most 60 |
| Store.CrawlNext | crawler/recipes_crawl.py:120-130 | one category's turn appends its ids and records and keeps the loop's invariant |
| Store.Crawl | crawler/recipes_crawl.py:118-133 | one id list per category, each an enumerator result. The records are those of every category in turn, at most 60 per category |
| Store.CrawlConfigured | crawler/recipes_crawl.py:15-133 | the run over the eight configured categories gives one id list per category and at most 480 records |
| Store.AccumulateAll | crawler/recipes_crawl.py:120-130 | `all_recipes`: each category's records in turn; described by AccumulateAllRecords |
| Store.AccumulateAllRecords | crawler/recipes_crawl.py:118-133 | every record collected comes from a fetched page of an id enumerated for some category, and carries that category's name |
| Store.LastWithIndex | crawler/recipes_crawl.py:164-182 | the reference lookup finds the last record carrying an id |
| Store.LastWithNone | crawler/recipes_crawl.py:164-182 | the reference lookup finds nothing exactly when no record carries the id |
| Store.Upsert | crawler/recipes_crawl.py:164-182 | the `INSERT OR REPLACE` loop as a fold of map updates keyed by id; described by UpsertLookup, UpsertKeys and UpsertKeyedById |
| Store.UpsertLookup | crawler/recipes_crawl.py:164-182 | after the upserts, an id is stored exactly when it was stored before or some record carries it. It holds the last such record, or its old row when no record carries it |
| Store.UpsertLastWins | crawler/recipes_crawl.py:164-182 | each id ends up holding the last record carrying it |
| Store.UpsertUntouched | crawler/recipes_crawl.py:164-182 | rows of ids that no record carries are left as they were |
| Store.UpsertIdempotent | crawler/recipes_crawl.py:164-182 | writing the same records a second time changes nothing |
| Store.UpsertAppend | crawler/recipes_crawl.py:164-182 | writing two runs of records is writing the first run, then the second |
| Store.UpsertKeyedById | crawler/recipes_crawl.py:150-182 | every row is stored under its record's own id, the primary key |
| Store.UpsertKeys | crawler/recipes_crawl.py:164-182 | the stored ids are the old ids plus the ids of the records: one row per distinct id |

## Left out

- HTTP requests, the five-second timeout and `raise_for_status`. A request
  is a parameter that yields either a failure or the parsed page.
- HTML parsing with BeautifulSoup and the CSS selectors. The model starts
  from the texts and attributes the selectors pick out.
- The `time.sleep` pauses and every `print`. They do not affect the data.
- The JSON file output, and the JSON serialisation of the `ingredients`
  and `steps` columns. The table stores the map and list themselves.
- The SQLite connection, `CREATE TABLE IF NOT EXISTS`, `commit` and `close`.
  The table is a map from id to record, starting from any given table.
- The order of `list(ids)`. Python's set iteration order is unspecified.
  The model returns ids in first-occurrence order, and the properties that
  depend on order are only meant as set-level claims.
- Unicode digits: `\d` also matches non-ASCII decimal digits. The model
  matches ASCII '0'..'9' only.
- Listing pages past the last one given read as a page with no links, which
  ends the enumeration. The source's loop (crawler/recipes_crawl.py:45-63)
  never ends on a site that answers every page number, however large, with a
  non-empty page whose ids are all already collected, for example one that
  serves its last page again for page numbers past the end. A finite list of
  pages cannot express such a site, so that non-termination is not modelled.
- A link without an `href` attribute raises `KeyError` in the source and
  ends the whole run. The model's links always carry an href.
- Exceptions inside `get_recipe_detail`, caught by the crawl loop's
  `try`/`except`. The record builder is total in the model, so only failed
  requests skip an id.
- Store.Crawl: each id's request gives the same result throughout a run.
  The source requests a recipe page anew each time an id is crawled
  (crawler/recipes_crawl.py:128), so an id listed under two categories
  could be fetched once and fail once. The model cannot express that.
