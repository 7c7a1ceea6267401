/** Reading a submissions table body: detecting the "None" placeholder that
    an empty page shows, and turning the data rows into lists of strings that
    all have the header's width (`has_none_placeholder`, `extract_rows`). */
module Rows {

  import opened Text
  import opened Html

  /** A `<td colspan=...>` whose stripped text is "None": what the site shows
      in place of submissions on an empty page. */
  predicate IsNonePlaceholder(c: Cell)
  {
    c.hasColspan && Strip(c.text) == "None"
  }

  /** Some cell of some row of `body` is the placeholder. */
  predicate HasPlaceholder(body: Body)
  {
    exists i, j {:trigger IsNonePlaceholder(body[i][j])} :: 0 <= i < |body| && 0 <= j < |body[i]| && IsNonePlaceholder(body[i][j])
  }

  /** Scans the rows, and the cells of each row, in order and stops at the
      first placeholder cell. */
  method HasNonePlaceholder(body: Body) returns (found: bool)
    ensures found == HasPlaceholder(body)
  {
    for i := 0 to |body|
      invariant forall i', j :: 0 <= i' < i && 0 <= j < |body[i']| ==> !IsNonePlaceholder(body[i'][j])
    {
      var tr := body[i];
      for j := 0 to |tr|
        invariant forall j' :: 0 <= j' < j ==> !IsNonePlaceholder(tr[j'])
      {
        if IsNonePlaceholder(tr[j]) {
          assert IsNonePlaceholder(body[i][j]);
          return true;
        }
      }
    }
    return false;
  }

  /** A row survives extraction when it has at least one cell and none of
      its cells spans columns. */
  predicate Keepable(tr: Row)
  {
    |tr| > 0 && forall k :: 0 <= k < |tr| ==> !tr[k].hasColspan
  }

  /** The stripped texts of a row's cells. */
  function CellTexts(tr: Row): (texts: seq<string>)
    ensures |texts| == |tr|
    ensures forall k :: 0 <= k < |tr| ==> texts[k] == Strip(tr[k].text)
  {
    seq(|tr|, k requires 0 <= k < |tr| => Strip(tr[k].text))
  }

  function Blanks(n: nat): (r: seq<string>)
    ensures |r| == n && forall k :: 0 <= k < n ==> r[k] == ""
  {
    seq(n, _ => "")
  }

  /** A row forced to `width` cells: its texts form a prefix of the result and
      the remainder is empty strings, or, when it is too long, the result is
      its first `width` texts. */
  function Fit(texts: seq<string>, width: nat): (r: seq<string>)
    ensures |r| == width
    ensures forall k :: 0 <= k < width && k < |texts| ==> r[k] == texts[k]
    ensures forall k :: |texts| <= k < width ==> r[k] == ""
  {
    if |texts| < width then texts + Blanks(width - |texts|) else texts[..width]
  }

  /** What one `<tr>` contributes: at most one row, present exactly when the
      `<tr>` has cells and none spans columns, holding the stripped cell
      texts as far as the width allows and "" after them. */
  function RowOutput(tr: Row, width: nat): (out: seq<seq<string>>)
    ensures |out| <= 1
    ensures out != [] <==> Keepable(tr)
    ensures out != [] ==>
      && |out[0]| == width
      && (forall k :: 0 <= k < width && k < |tr| ==> out[0][k] == Strip(tr[k].text))
      && (forall k :: |tr| <= k < width ==> out[0][k] == "")
  {
    if Keepable(tr) then [Fit(CellTexts(tr), width)] else []
  }

  /** The rows `extract_rows` produces from `body` for a header of `width`
      columns: one fitted row per keepable row, in order. */
  function ExtractedRows(body: Body, width: nat): (rows: seq<seq<string>>)
    ensures |rows| <= |body|
    ensures forall i :: 0 <= i < |rows| ==> |rows[i]| == width
  {
    if body == [] then []
    else RowOutput(body[0], width) + ExtractedRows(body[1..], width)
  }

  /** Extraction works row by row: the rows of two consecutive stretches of a
      body are those of the first stretch followed by those of the second. */
  lemma {:induction false} ExtractedRowsAppend(a: Body, b: Body, width: nat)
    ensures ExtractedRows(a + b, width) == ExtractedRows(a, width) + ExtractedRows(b, width)
  {
    if a == [] {
      assert a + b == b;
    } else {
      assert (a + b)[0] == a[0];
      assert (a + b)[1..] == a[1..] + b;
      ExtractedRowsAppend(a[1..], b, width);
      calc {
        ExtractedRows(a + b, width);
        RowOutput(a[0], width) + ExtractedRows(a[1..] + b, width);
        RowOutput(a[0], width) + (ExtractedRows(a[1..], width) + ExtractedRows(b, width));
        ExtractedRows(a, width) + ExtractedRows(b, width);
      }
    }
  }

  lemma ExtractedRowsSingle(tr: Row, width: nat)
    ensures ExtractedRows([tr], width) == RowOutput(tr, width)
  {
    assert [tr][1..] == [];
  }

  /** One row between two stretches of a body contributes its own output
      between theirs. */
  lemma RowsAround(a: Body, tr: Row, b: Body, width: nat)
    ensures ExtractedRows(a + [tr] + b, width)
         == ExtractedRows(a, width) + RowOutput(tr, width) + ExtractedRows(b, width)
  {
    ExtractedRowsAppend(a + [tr], b, width);
    ExtractedRowsAppend(a, [tr], width);
    ExtractedRowsSingle(tr, width);
  }

  /** A row with a spanning cell, or with no cell at all, contributes nothing
      wherever it stands. */
  lemma DroppedRow(a: Body, tr: Row, b: Body, width: nat)
    requires (exists k :: 0 <= k < |tr| && tr[k].hasColspan) || tr == []
    ensures ExtractedRows(a + [tr] + b, width) == ExtractedRows(a, width) + ExtractedRows(b, width)
  {
    assert !Keepable(tr);
    RowsAround(a, tr, b, width);
    assert ExtractedRows(a, width) + [] == ExtractedRows(a, width);
  }

  /** A keepable row contributes exactly its fitted texts, between the rows
      before it and the rows after it. */
  lemma KeptRow(a: Body, tr: Row, b: Body, width: nat)
    requires Keepable(tr)
    ensures ExtractedRows(a + [tr] + b, width)
         == ExtractedRows(a, width) + [Fit(CellTexts(tr), width)] + ExtractedRows(b, width)
  {
    RowsAround(a, tr, b, width);
  }

  /** A row holding the placeholder spans columns, so it is never extracted. */
  lemma PlaceholderRowDropped(a: Body, tr: Row, b: Body, width: nat)
    requires exists k :: 0 <= k < |tr| && IsNonePlaceholder(tr[k])
    ensures ExtractedRows(a + [tr] + b, width) == ExtractedRows(a, width) + ExtractedRows(b, width)
  {
    DroppedRow(a, tr, b, width);
  }

  /** Whether some cell of the row carries a `colspan` attribute. */
  method AnyColspan(tr: Row) returns (spans: bool)
    ensures spans <==> exists k :: 0 <= k < |tr| && tr[k].hasColspan
  {
    spans := false;
    for k := 0 to |tr|
      invariant spans <==> exists k' :: 0 <= k' < k && tr[k'].hasColspan
    {
      if tr[k].hasColspan {
        spans := true;
      }
    }
  }

  /** The texts of the row's cells, each stripped, in order. */
  method StripCells(tr: Row) returns (texts: seq<string>)
    ensures texts == CellTexts(tr)
  {
    texts := [];
    for k := 0 to |tr|
      invariant texts == CellTexts(tr[..k])
    {
      texts := texts + [Strip(tr[k].text)];
    }
    assert tr[..|tr|] == tr;
  }

  /** Walks the rows in order, skips the spanning and the empty ones, strips
      the cells of the others, pads them with "" or truncates them to the
      header's width, and appends them. */
  method ExtractRows(body: Body, headers: seq<string>) returns (rows: seq<seq<string>>)
    ensures rows == ExtractedRows(body, |headers|)
  {
    rows := [];
    for i := 0 to |body|
      invariant rows == ExtractedRows(body[..i], |headers|)
    {
      var tr := body[i];
      assert body[..i + 1] == body[..i] + [tr];
      ExtractedRowsAppend(body[..i], [tr], |headers|);
      ExtractedRowsSingle(tr, |headers|);
      var spans := AnyColspan(tr);
      if spans {
        continue;
      }
      var cells := tr;
      if |cells| > 0 {
        var rowData := StripCells(cells);
        assert |rowData| == |headers| ==> rowData[..|headers|] == rowData;
        if |rowData| != |headers| {
          if |rowData| < |headers| {
            rowData := rowData + Blanks(|headers| - |rowData|);
          } else {
            rowData := rowData[..|headers|];
          }
        }
        assert rowData == Fit(CellTexts(tr), |headers|);
        rows := rows + [rowData];
      }
    }
    assert body[..|body|] == body;
  }
}
