/** The page loop of `scrape_ucup_submissions`. The browser is replaced by
    `site`, the parsed page it shows for each page number (`site[p - 1]` for
    page p, `None` when that page has no submissions table). The loop takes
    the header from page 1 only, stops at the first page without a table,
    passes over pages whose table has no body or shows the "None"
    placeholder, and appends every other page's rows in page order. */
module Scrape {

  import opened Optional
  import opened Html
  import opened Rows
  import opened Headers
  import opened Urls

  const DefaultMaxPages: nat := 3

  /** What one page with a table adds to the collected rows: rows only
      when it has a body free of the placeholder, never more rows than the
      body has, each exactly as wide as the header. */
  function PageRows(t: Table, headers: seq<string>): (rows: seq<seq<string>>)
    ensures rows != [] ==> t.tbody.Some? && !HasPlaceholder(t.tbody.value)
    ensures t.tbody.Some? ==> |rows| <= |t.tbody.value|
    ensures forall i :: 0 <= i < |rows| ==> |rows[i]| == |headers|
  {
    match t.tbody
    case None => []
    case Some(body) => if HasPlaceholder(body) then [] else ExtractedRows(body, |headers|)
  }

  /** The rows collected from consecutive pages: those of each page in turn,
      up to the first page without a table. */
  function Collected(pages: seq<Option<Table>>, headers: seq<string>): (rows: seq<seq<string>>)
    ensures forall i :: 0 <= i < |rows| ==> |rows[i]| == |headers|
  {
    if pages == [] then []
    else match pages[0]
      case None => []
      case Some(t) => PageRows(t, headers) + Collected(pages[1..], headers)
  }

  /** How many pages the loop loads: every page up to and including the
      first one without a table. */
  function Visited(pages: seq<Option<Table>>): (n: nat)
    ensures n <= |pages|
  {
    if pages == [] then 0
    else if pages[0].None? then 1
    else 1 + Visited(pages[1..])
  }

  /** The header of the scrape: taken from page 1 when the loop gets that
      far and page 1 has a table, empty otherwise. */
  function ScrapedHeaders(site: seq<Option<Table>>, maxPages: int): (headers: seq<string>)
    requires maxPages <= |site|
    ensures headers != [] <==> maxPages >= 1 && site[0].Some?
    ensures headers != [] ==> headers == HeadersOf(site[0].value)
  {
    if maxPages >= 1 && site[0].Some? then HeadersOf(site[0].value) else []
  }

  /** The addresses of pages 1 to n of a contest, in order. */
  function PageUrls(contestId: string, n: nat): (urls: seq<string>)
    ensures |urls| == n
    ensures forall k :: 0 <= k < n ==> urls[k] == ConstructUrl(contestId, k + 1)
  {
    if n == 0 then [] else PageUrls(contestId, n - 1) + [ConstructUrl(contestId, n)]
  }

  function Clamp(maxPages: int): (n: nat)
  {
    if maxPages < 0 then 0 else maxPages
  }

  predicate AllTables(pages: seq<Option<Table>>)
  {
    forall k :: 0 <= k < |pages| ==> pages[k].Some?
  }

  /** Pages that all have a table collect one after the other. */
  lemma {:induction false} CollectedAppend(a: seq<Option<Table>>, b: seq<Option<Table>>, headers: seq<string>)
    requires AllTables(a)
    ensures Collected(a + b, headers) == Collected(a, headers) + Collected(b, headers)
    ensures Visited(a + b) == |a| + Visited(b)
  {
    if a == [] {
      assert a + b == b;
    } else {
      assert (a + b)[0] == a[0];
      assert (a + b)[1..] == a[1..] + b;
      CollectedAppend(a[1..], b, headers);
    }
  }

  /** Nothing after the first page without a table is looked at. */
  lemma StopsAtMissingTable(a: seq<Option<Table>>, b: seq<Option<Table>>, headers: seq<string>)
    requires AllTables(a)
    ensures Collected(a + [None] + b, headers) == Collected(a, headers)
    ensures Visited(a + [None] + b) == |a| + 1
  {
    assert a + [None] + b == a + ([None] + b);
    CollectedAppend(a, [None] + b, headers);
    assert Collected(a, headers) + [] == Collected(a, headers);
  }

  lemma CollectedCons(t: Table, b: seq<Option<Table>>, headers: seq<string>)
    ensures Collected([Some(t)] + b, headers) == PageRows(t, headers) + Collected(b, headers)
  {
    assert ([Some(t)] + b)[0] == Some(t);
    assert ([Some(t)] + b)[1..] == b;
  }

  /** A page whose table has no body, or whose body shows the placeholder,
      adds nothing, and the pages after it are still collected. */
  lemma SkipsEmptyPage(a: seq<Option<Table>>, t: Table, b: seq<Option<Table>>, headers: seq<string>)
    requires AllTables(a)
    requires t.tbody.None? || HasPlaceholder(t.tbody.value)
    ensures Collected(a + [Some(t)] + b, headers) == Collected(a, headers) + Collected(b, headers)
  {
    assert PageRows(t, headers) == [];
    SkipsPageWithoutRows(a, t, b, headers);
  }

  lemma SkipsPageWithoutRows(a: seq<Option<Table>>, t: Table, b: seq<Option<Table>>, headers: seq<string>)
    requires AllTables(a)
    requires PageRows(t, headers) == []
    ensures Collected(a + [Some(t)] + b, headers) == Collected(a, headers) + Collected(b, headers)
  {
    assert a + [Some(t)] + b == a + ([Some(t)] + b);
    CollectedAppend(a, [Some(t)] + b, headers);
    CollectedCons(t, b, headers);
  }

  /** Every collected row has exactly as many cells as the page-1 header has
      columns, whatever later pages' headers say, so the table built from
      them is never ragged; and rows are only ever collected under a
      non-empty header. */
  lemma ScrapedRowsFitHeader(site: seq<Option<Table>>, maxPages: int)
    requires maxPages <= |site|
    ensures var headers := ScrapedHeaders(site, maxPages);
      var rows := Collected(site[..Clamp(maxPages)], headers);
      && (forall i :: 0 <= i < |rows| ==> |rows[i]| == |headers|)
      && (rows != [] ==> |headers| > 0)
  {
    var headers := ScrapedHeaders(site, maxPages);
    var pages := site[..Clamp(maxPages)];
    if pages != [] && pages[0].Some? {
      assert maxPages >= 1 && site[0] == pages[0];
      assert |headers| > 0;
    }
  }

  lemma CollectedSingle(t: Table, headers: seq<string>)
    ensures Collected([Some(t)], headers) == PageRows(t, headers)
  {
    assert [Some(t)][1..] == [];
  }

  lemma SplitAround<T>(s: seq<T>, i: nat, n: nat)
    requires i < n <= |s|
    ensures s[..n] == s[..i] + [s[i]] + s[i + 1..n]
  {
  }

  /** One more page with a table: its rows follow those already collected. */
  lemma CollectNext(site: seq<Option<Table>>, page: nat, headers: seq<string>)
    requires 1 <= page <= |site| && AllTables(site[..page - 1]) && site[page - 1].Some?
    ensures AllTables(site[..page])
    ensures Collected(site[..page], headers)
         == Collected(site[..page - 1], headers) + PageRows(site[page - 1].value, headers)
    ensures Visited(site[..page]) == page
  {
    assert site[..page] == site[..page - 1] + [site[page - 1]];
    CollectedAppend(site[..page - 1], [site[page - 1]], headers);
    CollectedSingle(site[page - 1].value, headers);
  }

  /** A page without a table ends the collection at the pages before it. */
  lemma CollectStop(site: seq<Option<Table>>, page: nat, n: nat, headers: seq<string>)
    requires 1 <= page <= n <= |site| && AllTables(site[..page - 1]) && site[page - 1].None?
    ensures Collected(site[..n], headers) == Collected(site[..page - 1], headers)
    ensures Visited(site[..n]) == page
  {
    SplitAround(site, page - 1, n);
    StopsAtMissingTable(site[..page - 1], site[page..n], headers);
  }

  /** The rows one loaded page with a table yields: none when the table has
      no body or its body shows the placeholder, the extracted rows otherwise. */
  method RowsOnPage(t: Table, headers: seq<string>) returns (rows: seq<seq<string>>)
    ensures rows == PageRows(t, headers)
  {
    if t.tbody.None? {
      return [];
    }
    var placeholder := HasNonePlaceholder(t.tbody.value);
    if placeholder {
      return [];
    }
    rows := ExtractRows(t.tbody.value, headers);
  }

  /** Loads pages 1 to `maxPages` of contest `contestId` in turn and collects
      their submissions. Returns the header, the collected rows and the
      addresses of the pages loaded. */
  method ScrapeSubmissions(contestId: string, site: seq<Option<Table>>, maxPages: int := DefaultMaxPages)
    returns (headers: seq<string>, allRows: seq<seq<string>>, loaded: seq<string>)
    requires maxPages <= |site|
    ensures headers == ScrapedHeaders(site, maxPages)
    ensures allRows == Collected(site[..Clamp(maxPages)], headers)
    ensures loaded == PageUrls(contestId, Visited(site[..Clamp(maxPages)]))
  {
    headers := [];
    allRows := [];
    loaded := [];
    var page := 1;
    while page <= maxPages
      invariant 1 <= page <= Clamp(maxPages) + 1
      invariant AllTables(site[..page - 1])
      invariant page == 1 ==> headers == []
      invariant page > 1 ==> headers == HeadersOf(site[0].value)
      invariant allRows == Collected(site[..page - 1], headers)
      invariant loaded == PageUrls(contestId, page - 1)
      invariant Visited(site[..page - 1]) == page - 1
    {
      loaded := loaded + [ConstructUrl(contestId, page)];
      var table := site[page - 1];
      if table.None? {
        CollectStop(site, page, Clamp(maxPages), headers);
        break;
      }
      var t := table.value;
      if page == 1 {
        headers := ExtractTableHeaders(t);
      }
      assert headers == HeadersOf(site[0].value);
      CollectNext(site, page, headers);
      var rowsOnPage := RowsOnPage(t, headers);
      if rowsOnPage != [] {
        allRows := allRows + rowsOnPage;
      }
      page := page + 1;
    }
    if page > maxPages {
      assert site[..Clamp(maxPages)] == site[..page - 1];
    }
  }
}
