/**
 The listing enumerator `get_recipe_ids_by_cat4` (crawler/recipes_crawl.py:42-65):
 walk the listing pages of one category from page 1, turn every recipe link
 into an id, and collect distinct ids until `max_count` is reached, a page
 request fails, or a page has no links.
 */
module Listing {

  /** What one listing-page request yields: a failure, or the hrefs of the recipe links on it. */
  datatype Page = Failed | Links(hrefs: seq<string>)

  /** The request for this page ends the enumeration: it failed or found no links. */
  predicate Stops(p: Page) {
    p.Failed? || p.hrefs == []
  }

  /**
   Listing page `k` (numbered from 1) of a site whose pages are `pages`.
   Pages past the end come back with no links, as past the last page of a
   category.
   */
  function PageAt(pages: seq<Page>, k: nat): Page {
    if 1 <= k <= |pages| then pages[k - 1] else Links([])
  }

  /**
   `href.split("/")[-1]`: the text after the last '/', or the whole href
   when it has none.
   */
  function LastSegment(h: string): (r: string)
    ensures '/' !in r
  {
    if h == [] then []
    else if h[|h| - 1] == '/' then []
    else LastSegment(h[..|h| - 1]) + [h[|h| - 1]]
  }

  /** The id is a suffix of the href, and the href has a '/' just before it unless the id is all of it. */
  lemma {:induction false} LastSegmentSuffix(h: string)
    ensures var r := LastSegment(h);
      && |r| <= |h| && r == h[|h| - |r|..]
      && (|r| < |h| ==> h[|h| - |r| - 1] == '/')
  {
    if h != [] && h[|h| - 1] != '/' {
      var h' := h[..|h| - 1];
      LastSegmentSuffix(h');
      var r' := LastSegment(h');
      var r := LastSegment(h);
      assert r == r' + [h[|h| - 1]];
      var m := |h| - |r|;
      assert m == |h'| - |r'|;
      assert h == h' + [h[|h| - 1]];
      assert h[m..] == h'[m..] + [h[|h| - 1]];
      if m > 0 {
        assert h[m - 1] == h'[m - 1];
      }
    }
  }

  /** The id of a detail link is what follows its last '/'. */
  lemma {:induction false} LastSegmentOfPath(prefix: string, id: string)
    requires '/' !in id
    ensures LastSegment(prefix + "/" + id) == id
    decreases |id|
  {
    var h := prefix + "/" + id;
    if id != [] {
      var id' := id[..|id| - 1];
      assert h[..|h| - 1] == prefix + "/" + id';
      assert h[|h| - 1] == id[|id| - 1];
      LastSegmentOfPath(prefix, id');
      assert id' + [id[|id| - 1]] == id;
    }
  }

  /** An href ending in '/' gives the empty id. */
  lemma LastSegmentOfDirectory(prefix: string)
    ensures LastSegment(prefix + "/") == ""
  {
  }

  /** The ids the links of one page yield, in page order. */
  function IdsOn(p: Page): (ids: seq<string>)
    ensures p.Failed? ==> ids == []
    ensures p.Links? ==>
      (|ids| == |p.hrefs| && forall j :: 0 <= j < |p.hrefs| ==> ids[j] == LastSegment(p.hrefs[j]))
  {
    match p
    case Failed => []
    case Links(hrefs) => seq(|hrefs|, j requires 0 <= j < |hrefs| => LastSegment(hrefs[j]))
  }

  /** All ids of pages 1..n, in the order the crawler meets them. */
  function Stream(pages: seq<Page>, n: nat): seq<string> {
    if n == 0 then [] else Stream(pages, n - 1) + IdsOn(PageAt(pages, n))
  }

  /** Link `j` of page `k` yields `id`. */
  predicate SeenAt(pages: seq<Page>, k: int, j: int, id: string) {
    1 <= k && PageAt(pages, k).Links? && 0 <= j < |PageAt(pages, k).hrefs|
      && LastSegment(PageAt(pages, k).hrefs[j]) == id
  }

  /** Some link on one of pages 1..n yields `id`. */
  ghost predicate SeenOn(pages: seq<Page>, n: nat, id: string) {
    exists k, j :: k <= n && SeenAt(pages, k, j, id)
  }

  /** Every id of the first `n` pages comes from a link on one of them. */
  lemma {:induction false} StreamProvenance(pages: seq<Page>, n: nat, id: string)
    requires id in Stream(pages, n)
    ensures SeenOn(pages, n, id)
  {
    if n > 0 {
      if id in Stream(pages, n - 1) {
        StreamProvenance(pages, n - 1, id);
        var k, j :| k <= n - 1 && SeenAt(pages, k, j, id);
        assert k <= n && SeenAt(pages, k, j, id);
      } else {
        assert Stream(pages, n) == Stream(pages, n - 1) + IdsOn(PageAt(pages, n));
        var j := PageProvenance(pages, n, id);
      }
    }
  }

  /** An id of page `n` comes from one of its links; returns which. */
  lemma PageProvenance(pages: seq<Page>, n: nat, id: string) returns (j: int)
    requires 1 <= n && id in IdsOn(PageAt(pages, n))
    ensures SeenAt(pages, n, j, id)
  {
    var p := PageAt(pages, n);
    var ids := IdsOn(p);
    j :| 0 <= j < |ids| && ids[j] == id;
    assert p.Links?;
    assert LastSegment(p.hrefs[j]) == id;
  }

  predicate NoDuplicates<T(==)>(s: seq<T>) {
    forall i, j :: 0 <= i < j < |s| ==> s[i] != s[j]
  }

  /** The distinct elements of `s` in order of first occurrence, as a set fills up. */
  function Dedup<T(==)>(s: seq<T>): (r: seq<T>)
    ensures NoDuplicates(r)
    ensures |r| <= |s|
  {
    if s == [] then []
    else
      var d := Dedup(s[..|s| - 1]);
      assert s == s[..|s| - 1] + [s[|s| - 1]];
      if s[|s| - 1] in d then d else d + [s[|s| - 1]]
  }

  /** Deduplication keeps exactly the elements of its input. */
  lemma {:induction false} DedupMembers<T>(s: seq<T>, x: T)
    ensures x in Dedup(s) <==> x in s
  {
    if s != [] {
      DedupMembers(s[..|s| - 1], x);
      assert s == s[..|s| - 1] + [s[|s| - 1]];
    }
  }

  /** Reading one more element appends it unless it was already seen. */
  lemma DedupSnoc<T>(x: seq<T>, a: T)
    ensures Dedup(x + [a]) == if a in Dedup(x) then Dedup(x) else Dedup(x) + [a]
  {
    assert (x + [a])[..|x + [a]| - 1] == x;
  }

  /** Reading more input only adds to the end of what was collected. */
  lemma {:induction false} DedupPrefix<T>(x: seq<T>, y: seq<T>)
    ensures Dedup(x) <= Dedup(x + y)
    decreases |y|
  {
    if y != [] {
      var y' := y[..|y| - 1];
      DedupPrefix(x, y');
      assert (x + y)[..|x + y| - 1] == x + y';
    } else {
      assert x + y == x;
    }
  }

  /** The first `n` elements (all of them when there are fewer); none when n <= 0. */
  function Take<T>(s: seq<T>, n: int): (r: seq<T>)
    ensures |r| == if n <= 0 then 0 else if n < |s| then n else |s|
    ensures r <= s
  {
    if n <= 0 then [] else if n < |s| then s[..n] else s
  }

  /** Stopping after `Dedup(x)` reaches `m` ids, or at the end of the input, keeps the first `m`. */
  lemma DedupTake<T>(x: seq<T>, y: seq<T>, m: int)
    requires |Dedup(x)| <= m
    requires y == [] || |Dedup(x)| == m
    ensures Take(Dedup(x + y), m) == Dedup(x)
  {
    DedupPrefix(x, y);
    if y == [] {
      assert x + y == x;
    }
  }

  lemma ReadOneMore<T>(before: seq<T>, xs: seq<T>, used: nat)
    requires used < |xs|
    ensures before + xs[..used + 1] == (before + xs[..used]) + [xs[used]]
  {
    assert xs[..used + 1] == xs[..used] + [xs[used]];
  }

  /**
   The `for link in links` loop of one page, over the ids of its links: add
   each id not yet held, stopping as soon as `maxCount` distinct ids are
   held. Returns the new ids and how many links were read.
   */
  method AddLinks(ids: seq<string>, pageIds: seq<string>, maxCount: int, ghost before: seq<string>)
    returns (ids': seq<string>, used: nat)
    requires ids == Dedup(before) && |ids| < maxCount
    ensures used <= |pageIds|
    ensures ids' == Dedup(before + pageIds[..used])
    ensures |ids'| <= maxCount
    ensures used < |pageIds| ==> |ids'| == maxCount
  {
    ids' := ids;
    used := 0;
    assert before + pageIds[..0] == before;
    while used < |pageIds|
      invariant used <= |pageIds|
      invariant ids' == Dedup(before + pageIds[..used])
      invariant |ids'| < maxCount
    {
      var rid := pageIds[used];
      ReadOneMore(before, pageIds, used);
      DedupSnoc(before + pageIds[..used], rid);
      if rid !in ids' {
        ids' := ids' + [rid];
      }
      used := used + 1;
      if |ids'| >= maxCount {
        return;
      }
    }
  }

  /** No page before page `n` ends the enumeration. */
  predicate NoStopBefore(pages: seq<Page>, n: nat) {
    forall k :: 1 <= k < n ==> !Stops(PageAt(pages, k))
  }

  lemma NoStopExtend(pages: seq<Page>, n: nat)
    requires NoStopBefore(pages, n) && !Stops(PageAt(pages, n))
    ensures NoStopBefore(pages, n + 1)
  {
  }

  /** A page that ends the enumeration contributes no ids. */
  lemma StreamAtStop(pages: seq<Page>, n: nat)
    requires 1 <= n && Stops(PageAt(pages, n))
    ensures Stream(pages, n) == Stream(pages, n - 1)
  {
    assert IdsOn(PageAt(pages, n)) == [];
  }

  /** The ids up to page `n`, cut after the first `used` links of page `n`. */
  lemma StreamCut(pages: seq<Page>, n: nat, used: nat)
    requires 1 <= n && used <= |IdsOn(PageAt(pages, n))|
    ensures Stream(pages, n) ==
      (Stream(pages, n - 1) + IdsOn(PageAt(pages, n))[..used]) + IdsOn(PageAt(pages, n))[used..]
  {
    var xs := IdsOn(PageAt(pages, n));
    assert xs == xs[..used] + xs[used..];
  }

  /** A prefix of a sequence without duplicates has none. */
  lemma NoDuplicatesPrefix<T>(s: seq<T>, r: seq<T>)
    requires NoDuplicates(s) && r <= s
    ensures NoDuplicates(r)
  {
  }

  /**
   One turn of the page loop: read page `page` and add its links until
   `maxCount` ids are held. `done` says the enumeration ends with this page.
   */
  method ReadPage(pages: seq<Page>, maxCount: int, page: nat, ids: seq<string>)
    returns (ids': seq<string>, done: bool)
    requires 1 <= page && ids == Dedup(Stream(pages, page - 1)) && |ids| < maxCount
    ensures done ==> ids' == Take(Dedup(Stream(pages, page)), maxCount)
    ensures done && |ids'| < maxCount ==> Stops(PageAt(pages, page))
    ensures !done ==> !Stops(PageAt(pages, page)) && ids' == Dedup(Stream(pages, page)) && |ids'| < maxCount
    ensures !done ==> page <= |pages|
  {
    var p := PageAt(pages, page);
    if Stops(p) {
      StreamAtStop(pages, page);
      return ids, true;
    }
    var pageIds := IdsOn(p);
    var used;
    ids', used := AddLinks(ids, pageIds, maxCount, Stream(pages, page - 1));
    StreamCut(pages, page, used);
    DedupTake(Stream(pages, page - 1) + pageIds[..used], pageIds[used..], maxCount);
    if |ids'| == maxCount {
      return ids', true;
    }
    assert pageIds[..used] == pageIds;
    done := false;
  }

  /**
   `get_recipe_ids_by_cat4(cat4, max_count)` over the site `pages`: returns
   the ids collected and how many pages were requested.
   */
  method CollectIds(pages: seq<Page>, maxCount: int) returns (ids: seq<string>, requested: nat)
    ensures maxCount <= 0 ==> requested == 0 && ids == []
    ensures maxCount > 0 ==> 1 <= requested
    ensures ids == Take(Dedup(Stream(pages, requested)), maxCount)
    ensures NoStopBefore(pages, requested)
    ensures |ids| < maxCount ==> Stops(PageAt(pages, requested))
    ensures 1 <= requested ==> |Dedup(Stream(pages, requested - 1))| < maxCount
  {
    ids := [];
    requested := 0;
    if maxCount <= 0 {
      return;
    }
    var page := 1;
    while true
      invariant 1 <= page <= |pages| + 1
      invariant ids == Dedup(Stream(pages, page - 1)) && |ids| < maxCount
      invariant NoStopBefore(pages, page)
      decreases |pages| + 1 - page
    {
      var done;
      ghost var held := ids;
      ids, done := ReadPage(pages, maxCount, page, ids);
      if done {
        requested := page;
        assert |Dedup(Stream(pages, requested - 1))| == |held| < maxCount;
        return;
      }
      NoStopExtend(pages, page);
      page := page + 1;
    }
  }

  /** What the enumeration collects holds no id twice, and at most `maxCount` of them. */
  lemma CollectedDistinct(pages: seq<Page>, n: nat, maxCount: int)
    ensures NoDuplicates(Take(Dedup(Stream(pages, n)), maxCount))
    ensures |Take(Dedup(Stream(pages, n)), maxCount)| <= if maxCount < 0 then 0 else maxCount
  {
    NoDuplicatesPrefix(Dedup(Stream(pages, n)), Take(Dedup(Stream(pages, n)), maxCount));
  }

  /** Every collected id comes from a link on one of the pages requested. */
  lemma CollectedWereSeen(pages: seq<Page>, n: nat, maxCount: int, id: string)
    requires id in Take(Dedup(Stream(pages, n)), maxCount)
    ensures SeenOn(pages, n, id)
  {
    DedupMembers(Stream(pages, n), id);
    StreamProvenance(pages, n, id);
  }

  /** The ids of page 1 open the stream of every later page count. */
  lemma {:induction false} StreamStartsWithFirstPage(pages: seq<Page>, n: nat)
    requires 1 <= n
    ensures IdsOn(PageAt(pages, 1)) <= Stream(pages, n)
  {
    if n == 1 {
      assert Stream(pages, 0) == [];
      assert Stream(pages, 1) == IdsOn(PageAt(pages, 1));
    } else {
      StreamStartsWithFirstPage(pages, n - 1);
      assert Stream(pages, n) == Stream(pages, n - 1) + IdsOn(PageAt(pages, n));
    }
  }

  /** Once page 1 has links, requesting it yields at least one id. */
  lemma CollectedNotEmpty(pages: seq<Page>, n: nat, maxCount: int)
    requires 1 <= n && maxCount > 0 && !Stops(PageAt(pages, 1))
    ensures Take(Dedup(Stream(pages, n)), maxCount) != []
  {
    var first := IdsOn(PageAt(pages, 1));
    StreamStartsWithFirstPage(pages, n);
    assert first[0] == Stream(pages, n)[0];
    DedupMembers(Stream(pages, n), first[0]);
  }
}
