/** Column names of the submissions table (`extract_table_headers`): the
    stripped `<th>` texts of the first header row, or the eight default names
    when the table offers none. */
module Headers {

  import opened Text
  import opened Html

  /** The eight columns of a submissions page, used when the table has no header. */
  const DefaultHeaders: seq<string> :=
    ["ID", "Problem", "Submitter", "Result", "Time", "Memory", "File size", "Submit time"]

  /** The `<th>` texts of the first `<tr>` of the `<thead>`, or nothing when
      there is no `<thead>` or it holds no row. */
  function FirstHeaderRow(t: Table): (ths: seq<string>)
  {
    if t.thead.Some? && |t.thead.value| > 0 then t.thead.value[0] else []
  }

  function StripAll(texts: seq<string>): (r: seq<string>)
    ensures |r| == |texts|
    ensures forall k :: 0 <= k < |texts| ==> r[k] == Strip(texts[k])
  {
    seq(|texts|, k requires 0 <= k < |texts| => Strip(texts[k]))
  }

  /** The header a table yields: never empty; the stripped texts of the
      first header row when that row has a `<th>`, the defaults otherwise. */
  function HeadersOf(t: Table): (headers: seq<string>)
    ensures |headers| > 0
    ensures |FirstHeaderRow(t)| > 0 ==>
      |headers| == |FirstHeaderRow(t)|
      && forall k :: 0 <= k < |headers| ==> headers[k] == Strip(FirstHeaderRow(t)[k])
    ensures FirstHeaderRow(t) == [] ==> headers == DefaultHeaders
  {
    var ths := FirstHeaderRow(t);
    if |ths| > 0 then StripAll(ths) else DefaultHeaders
  }

  /** Collects the stripped `<th>` texts of the first header row, one by one,
      and falls back to the defaults when none was collected. */
  method ExtractTableHeaders(table: Table) returns (headers: seq<string>)
    ensures headers == HeadersOf(table)
    ensures |headers| > 0
  {
    headers := [];
    if table.thead.Some? {
      var trs := table.thead.value;
      if |trs| > 0 {
        var ths := trs[0];
        for k := 0 to |ths|
          invariant headers == StripAll(ths[..k])
        {
          headers := headers + [Strip(ths[k])];
        }
        assert ths[..|ths|] == ths;
      }
    }
    if headers == [] {
      headers := DefaultHeaders;
    }
  }
}
