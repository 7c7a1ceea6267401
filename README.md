# Universal Cup submissions scraper: the table and paging core

`ucup_submissions_scraper.py` loads the submission list of a Universal Cup
contest page by page in a browser and turns the HTML table it finds into rows
of strings under a header. This project models the part of the script that is
its own logic:

- building the address of a page (`construct_url`);
- reading the header of the table, with its eight-column fallback
  (`extract_table_headers`);
- detecting the "None" placeholder an empty page shows (`has_none_placeholder`);
- turning the body rows into rows exactly as wide as the header
  (`extract_rows`);
- the page loop of `scrape_ucup_submissions`, which collects rows across pages;
- the paging of the demonstration data in `generate_sample_data`.

The browser and the HTML parser are not modelled. A parsed table is a value
(`Html.Table`): an optional list of header rows (each a list of `<th>` texts)
and an optional body (a list of rows, each a list of cells holding a text and
whether the cell carries a `colspan` attribute). A page load becomes an input
sequence `site`: `site[p - 1]` is the table page `p` shows, or `None` when the
page has no submissions table.

Modules:

- `Optional`: the option type.
- `Html`: the parsed table.
- `Text`: Python's `str.strip`, over the full set of characters `str.isspace`
  accepts, and `str(int)` together with a reader for it.
- `Urls`: page addresses.
- `Headers`: `extract_table_headers`.
- `Rows`: `has_none_placeholder` and `extract_rows`.
- `Scrape`: the page loop.
- `SamplePages`: the demonstration data and its pages.

Each loop of the source is a method. It is proved against a function that
says what the loop computes, and the properties of the source are lemmas
about those functions.

## Model

| member | source | states |
|---|---|---|
| Text.Strip | ucup_submissions_scraper.py:225 | The result is no longer than the input and neither starts nor ends with a whitespace character. |
| Text.NatToStringRoundTrip | ucup_submissions_scraper.py:104 | The decimal digits of a natural number read back as that number. |
| Text.StripInfix | ucup_submissions_scraper.py:225 | The result of strip is a contiguous piece of the input, and everything cut off on either side is whitespace. |
| Text.StripFramed | ucup_submissions_scraper.py:199 | Whitespace put around a text that neither starts nor ends with whitespace is removed exactly, so a cell written as " None " strips to "None". |
| Text.StripIdempotent | ucup_submissions_scraper.py:176 | Stripping a stripped text changes nothing. |
| Text.IntToString | ucup_submissions_scraper.py:104 | The decimal text of the page number inside the address: never empty, only digits and a minus sign. |
| Text.IntToStringRoundTrip | ucup_submissions_scraper.py:104 | The decimal text `IntToString` gives any integer, with a minus sign when it is negative, reads back as that integer. |
| Urls.ConstructUrlShape | ucup_submissions_scraper.py:93-105 | `Urls.ConstructUrl` is the definition of `construct_url`. The address it builds is the base URL, the contest id and "/submissions?v=1&page=", followed by text that reads back as the page number. |
| Urls.ConstructUrlRoundTrip | ucup_submissions_scraper.py:104 | Reading an address back gives exactly the contest id and the page it was built from. |
| Urls.ConstructUrlInjective | ucup_submissions_scraper.py:104 | Two different (contest, page) pairs never get the same address. |
| Headers.StripAll | ucup_submissions_scraper.py:175-176 | The stripped `<th>` texts, one per `<th>`, in order. |
| Headers.HeadersOf | ucup_submissions_scraper.py:170-184 | The header is never empty. It is the stripped texts of the first header row when that row has a `<th>`, and the eight default names otherwise. |
| Headers.ExtractTableHeaders | ucup_submissions_scraper.py:160-184 | The loop collects exactly the header `HeadersOf` describes, which is non-empty. |
| Rows.HasNonePlaceholder | ucup_submissions_scraper.py:187-201 | The nested scan returns true exactly when `Rows.HasPlaceholder` holds: some cell of some row has a colspan and its stripped text is "None". |
| Rows.AnyColspan | ucup_submissions_scraper.py:219 | True exactly when some cell of the row has a colspan. |
| Rows.CellTexts | ucup_submissions_scraper.py:225 | One stripped text per cell, in order. |
| Rows.StripCells | ucup_submissions_scraper.py:225 | The loop yields exactly the stripped texts of the row's cells. |
| Rows.Fit | ucup_submissions_scraper.py:227-234 | The row gets exactly the header's width. A short row keeps all its texts as a prefix and is padded with "". A long row keeps its first texts. |
| Rows.RowOutput | ucup_submissions_scraper.py:218-236 | One `<tr>` yields at most one row. It yields a row exactly when the `<tr>` has cells and none has a colspan (`Rows.Keepable`). That row is exactly as wide as the header, holds the stripped cell texts as far as the width allows, and "" after them. |
| Rows.ExtractedRows | ucup_submissions_scraper.py:204-238 | At most one output row per body row, and every output row is exactly as wide as the header. |
| Rows.ExtractedRowsAppend | ucup_submissions_scraper.py:217-236 | Extraction works row by row, in order: the rows of two consecutive stretches of a body are those of the first followed by those of the second. |
| Rows.DroppedRow | ucup_submissions_scraper.py:218-224 | A row with a colspan cell, or with no cell (one `Rows.Keepable` rejects), contributes nothing wherever it stands. |
| Rows.KeptRow | ucup_submissions_scraper.py:223-236 | A row with cells and no colspan contributes exactly its fitted stripped texts, between the rows before it and the rows after it. |
| Rows.PlaceholderRowDropped | ucup_submissions_scraper.py:219-220 | A row holding the "None" placeholder is never extracted. |
| Rows.ExtractRows | ucup_submissions_scraper.py:204-238 | The loop returns exactly `ExtractedRows` of the body for the header's width. |
| Scrape.PageRows | ucup_submissions_scraper.py:369-397 | A page adds rows only when it has a body free of the placeholder. It never adds more rows than its body has, and each is exactly as wide as the header. |
| Scrape.ScrapedHeaders | ucup_submissions_scraper.py:322-368 | The header of a scrape is non-empty exactly when the loop reaches page 1 and page 1 has a table, and then it is that table's header; later pages never change it. |
| Scrape.Collected | ucup_submissions_scraper.py:343-400 | The rows of consecutive pages up to the first page without a table; each is as wide as the header. |
| Scrape.Visited | ucup_submissions_scraper.py:343-364 | The number of pages loaded: all of them up to and including the first without a table, never more than are offered. |
| Scrape.PageUrls | ucup_submissions_scraper.py:343-344 | The n addresses loaded, the k-th for page k + 1 of the contest. |
| Scrape.CollectedAppend | ucup_submissions_scraper.py:400 | Pages that all have a table contribute one after the other, in page order. |
| Scrape.StopsAtMissingTable | ucup_submissions_scraper.py:361-364 | Nothing after the first page without a table is loaded or collected. |
| Scrape.SkipsEmptyPage | ucup_submissions_scraper.py:370-381 | A page without a body or showing the placeholder adds nothing, and the pages after it are still collected. |
| Scrape.SkipsPageWithoutRows | ucup_submissions_scraper.py:394-397 | A page that yields no rows adds nothing, and the pages after it are still collected. |
| Scrape.ScrapedRowsFitHeader | ucup_submissions_scraper.py:366-400 | Every collected row is as wide as the page-1 header, whatever later pages' headers say, and rows are only ever collected under a non-empty header. |
| Scrape.RowsOnPage | ucup_submissions_scraper.py:369-384 | The rows one loaded page yields are exactly `PageRows`. |
| Scrape.ScrapeSubmissions | ucup_submissions_scraper.py:305-400 | The loop (with `max_pages` defaulting to 3) returns the page-1 header `ScrapedHeaders` describes, the rows `Collected` describes for the first `max_pages` pages, and the addresses of exactly the pages `Visited` counts, in order. |
| SamplePages.PagesFromConcat | ucup_submissions_scraper.py:465-467 | The pages starting at row i put back together give the rows from i on. |
| SamplePages.PaginateConcat | ucup_submissions_scraper.py:465-467 | Putting the pages `SamplePages.Paginate` (through `SamplePages.PagesFrom`) cuts back together gives the original list. |
| SamplePages.PagesFromShape | ucup_submissions_scraper.py:465-467 | Pages starting at a multiple of the size are numbered consecutively from `i // size + 1`. Each holds between one and size rows, and every page but the last holds exactly size. |
| SamplePages.PaginateShape | ucup_submissions_scraper.py:464-467 | The pages `SamplePages.Paginate` cuts are numbered 1, 2, ... in order. Each holds between one and size rows, and every page but the last holds exactly size. |
| SamplePages.PageByPage | ucup_submissions_scraper.py:465-472 | The loop hands out exactly the pages `Paginate` describes. |
| SamplePages.GenerateSampleData | ucup_submissions_scraper.py:435-478 | The default header and the ten rows, each as wide as the header. The pages of three they are shown in hold every row once, in order, numbered from 1. |

## Left out

- The Selenium driver, the cookie, the "show all submissions" checkbox, the preliminary load and reload of page 1, `driver.get` and the sleeps (lines 76-157, 320-349). These are browser and network I/O. Each page load is replaced by the input `site`.
- Scrape.ScrapeSubmissions: requires `site` to offer at least `max_pages` pages. A site with fewer pages would in practice show table-less pages, which the model expresses as `None` entries.
- HTML parsing by BeautifulSoup: `find`, `find_all` (which searches all descendants, not only children) and `has_attr` are replaced by the abstract `Html.Table`.
- Printing and statistics (`print_page_stats`, `print_data_summary`), pandas DataFrames, CSV files (`save_page_to_csv`, `save_to_csv`), the debug page dumps, `cleanup_test_files`, argparse, logging and `main`'s fallback to the sample data. These are display, file I/O and process plumbing.
- Text.ParseInt: accepts only an optional minus sign followed by decimal digits. Python's `int()` also takes surrounding whitespace, a plus sign and underscores. It serves only as the reader that addresses are proved against.
