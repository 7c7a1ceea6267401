/** The demonstration data used when scraping finds nothing
    (`generate_sample_data`): ten fixed submissions, shown and saved page by
    page in pages of three, the slice starting at row i being page i / 3 + 1. */
module SamplePages {

  import opened Headers

  const SamplePageSize: nat := 3

  datatype Page<T> = Page(number: nat, rows: seq<T>)

  /** Where the page starting at row `i` ends: `size` rows on, or the end
      of the list when fewer rows are left. */
  function PageEnd<T>(rows: seq<T>, size: nat, i: nat): (end: nat)
    requires i < |rows|
    ensures i <= end <= |rows|
    ensures end == |rows| || end == i + size
  {
    if i + size <= |rows| then i + size else |rows|
  }

  /** The pages starting at row `i`, then at every `size`-th row after it,
      each holding up to `size` rows and numbered by its start divided by
      `size`, plus one. */
  function PagesFrom<T>(rows: seq<T>, size: nat, i: nat): (pages: seq<Page<T>>)
    requires size > 0
    decreases |rows| - i
  {
    if i >= |rows| then []
    else [Page(i / size + 1, rows[i..PageEnd(rows, size, i)])] + PagesFrom(rows, size, i + size)
  }

  function Paginate<T>(rows: seq<T>, size: nat): (pages: seq<Page<T>>)
    requires size > 0
  {
    PagesFrom(rows, size, 0)
  }

  /** The rows of the pages, one page after the other. */
  function Concat<T>(pages: seq<Page<T>>): (rows: seq<T>)
  {
    if pages == [] then [] else pages[0].rows + Concat(pages[1..])
  }

  lemma ConcatCons<T>(p: Page<T>, rest: seq<Page<T>>)
    ensures Concat([p] + rest) == p.rows + Concat(rest)
  {
    assert ([p] + rest)[0] == p;
    assert ([p] + rest)[1..] == rest;
  }

  lemma {:induction false} PagesFromConcat<T>(rows: seq<T>, size: nat, i: nat)
    requires size > 0 && i <= |rows|
    ensures Concat(PagesFrom(rows, size, i)) == rows[i..]
    decreases |rows| - i
  {
    if i < |rows| {
      var end := PageEnd(rows, size, i);
      ConcatCons(Page(i / size + 1, rows[i..end]), PagesFrom(rows, size, i + size));
      if i + size <= |rows| {
        PagesFromConcat(rows, size, i + size);
        assert rows[i..] == rows[i..end] + rows[end..];
      } else {
        assert rows[i..] == rows[i..end] + [];
      }
    }
  }

  /** Putting the pages back together gives the original list. */
  lemma PaginateConcat<T>(rows: seq<T>, size: nat)
    requires size > 0
    ensures Concat(Paginate(rows, size)) == rows
  {
    PagesFromConcat(rows, size, 0);
  }

  lemma {:induction false} MulAtLeast(a: int, size: int)
    requires a >= 1 && size > 0
    ensures a * size >= size
  {
    if a > 1 {
      MulAtLeast(a - 1, size);
      assert a * size == (a - 1) * size + size;
    }
  }

  /** Euclidean division undoes an exact multiple. */
  lemma DivExact(x: int, size: int, q: int)
    requires size > 0 && x == q * size
    ensures x / size == q
  {
    var d := x / size;
    assert d * size + x % size == x;
    if d > q {
      MulAtLeast(d - q, size);
    } else if d < q {
      MulAtLeast(q - d, size);
    }
  }

  /** The page after one that starts at a multiple of `size` starts at the
      next multiple and has the next number. */
  lemma NextPageStart(i: int, size: int)
    requires size > 0 && i % size == 0
    ensures (i + size) % size == 0 && (i + size) / size == i / size + 1
  {
    var q := i / size;
    assert i == q * size;
    assert i + size == (q + 1) * size;
    DivExact(i + size, size, q + 1);
  }

  /** Pages numbered consecutively from `first`, each holding between one
      and `size` rows, every one but the last holding exactly `size`. */
  predicate Shaped<T>(pages: seq<Page<T>>, first: int, size: nat)
  {
    forall k :: 0 <= k < |pages| ==>
      && pages[k].number == first + k
      && 0 < |pages[k].rows| <= size
      && (k < |pages| - 1 ==> |pages[k].rows| == size)
  }

  lemma {:induction false} PagesFromShape<T>(rows: seq<T>, size: nat, i: nat)
    requires size > 0 && i % size == 0 && i <= |rows|
    ensures Shaped(PagesFrom(rows, size, i), i / size + 1, size)
    decreases |rows| - i
  {
    if i < |rows| {
      var pages := PagesFrom(rows, size, i);
      var tail := PagesFrom(rows, size, i + size);
      var end := PageEnd(rows, size, i);
      assert pages == [Page(i / size + 1, rows[i..end])] + tail;
      NextPageStart(i, size);
      if i + size <= |rows| {
        PagesFromShape(rows, size, i + size);
      } else {
        assert tail == [];
      }
      assert Shaped(tail, i / size + 2, size);
      assert tail != [] ==> end == i + size;
      forall k | 0 < k < |pages|
        ensures pages[k] == tail[k - 1]
      {
      }
    }
  }

  /** Pages are numbered 1, 2, ... in order; every page holds between one
      and `size` rows, and every page but the last holds exactly `size`. */
  lemma PaginateShape<T>(rows: seq<T>, size: nat)
    requires size > 0
    ensures Shaped(Paginate(rows, size), 1, size)
  {
    PagesFromShape(rows, size, 0);
  }

  /** The ten demonstration submissions, one row per submission in the
      columns of the default header. */
  const SampleData: seq<seq<string>> := [
    ["#100001", "A. Easy Problem", "Team 1", "AC", "10ms", "4096kb", "1.2kb", "00:15:30"],
    ["#100002", "A. Easy Problem", "Team 2", "WA", "5ms", "4096kb", "1.1kb", "00:17:45"],
    ["#100003", "B. Medium Problem", "Team 1", "AC", "100ms", "8192kb", "2.3kb", "00:45:20"],
    ["#100004", "B. Medium Problem", "Team 3", "TLE", "1000ms", "8192kb", "2.1kb", "01:05:12"],
    ["#100005", "C. Hard Problem", "Team 2", "WA", "50ms", "16384kb", "3.5kb", "01:30:45"],
    ["#100006", "C. Hard Problem", "Team 3", "AC", "500ms", "16384kb", "3.7kb", "01:55:10"],
    ["#100007", "D. Very Hard Problem", "Team 1", "AC", "750ms", "32768kb", "4.8kb", "02:25:30"],
    ["#100008", "D. Very Hard Problem", "Team 2", "MLE", "800ms", "131072kb", "4.9kb", "02:45:18"],
    ["#100009", "E. Extreme Problem", "Team 3", "WA", "900ms", "65536kb", "5.2kb", "03:15:25"],
    ["#100010", "E. Extreme Problem", "Team 1", "AC", "950ms", "65536kb", "5.5kb", "03:45:50"]
  ]

  /** Steps through the rows `size` at a time and hands out the pages one at a
      time, in order, each with its number and its rows. */
  method PageByPage<T>(rows: seq<T>, size: nat) returns (pages: seq<Page<T>>)
    requires size > 0
    ensures pages == Paginate(rows, size)
  {
    pages := [];
    var i := 0;
    while i < |rows|
      invariant pages + PagesFrom(rows, size, i) == Paginate(rows, size)
      decreases |rows| - i
    {
      var page := Page(i / size + 1, rows[i..PageEnd(rows, size, i)]);
      NextPage(pages, page, PagesFrom(rows, size, i + size));
      pages := pages + [page];
      i := i + size;
    }
    assert pages + [] == pages;
  }

  lemma NextPage<T>(done: seq<Page<T>>, page: Page<T>, rest: seq<Page<T>>)
    ensures done + ([page] + rest) == (done + [page]) + rest
  {
  }

  /** The demonstration: the default header, the ten rows, each exactly as
      wide as the header, and the pages of three they are shown and saved
      in, which hold every row once, in order. */
  method GenerateSampleData() returns (headers: seq<string>, data: seq<seq<string>>, pages: seq<Page<seq<string>>>)
    ensures headers == DefaultHeaders && data == SampleData && |data| == 10
    ensures forall k :: 0 <= k < |data| ==> |data[k]| == |headers|
    ensures Concat(pages) == data
    ensures Shaped(pages, 1, SamplePageSize)
  {
    headers := DefaultHeaders;
    data := SampleData;
    pages := PageByPage(data, SamplePageSize);
    PaginateConcat(data, SamplePageSize);
    PaginateShape(data, SamplePageSize);
  }
}
