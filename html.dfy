/** The parts of a parsed submissions page the scraper looks at, with the
    HTML parser's search calls replaced by plain values: a `<table>` has an
    optional `<thead>` and an optional `<tbody>`, and a body is its `<tr>`
    rows in document order, each the list of its `<td>` cells. */
module Html {

  import opened Optional

  /** One `<td>`: its text content and whether it carries a `colspan` attribute. */
  datatype Cell = Cell(text: string, hasColspan: bool)

  /** The `<td>` cells of one `<tr>`, in order. */
  type Row = seq<Cell>

  /** The `<tr>` rows of a `<tbody>`, in order. */
  type Body = seq<Row>

  /** A `<table class="table">`: `thead` holds the `<tr>` rows of its header,
      each given as the texts of its `<th>` cells. */
  datatype Table = Table(thead: Option<seq<seq<string>>>, tbody: Option<Body>)
}
