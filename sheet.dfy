/**
 * The worksheet app.py reads and writes through gspread, held in memory:
 * a header row (row 1) and the data rows below it, each a record that maps
 * a column header to the cell's text.
 */
module Sheet {

  import opened Wrappers

  /** One record of `get_all_records()`: column header to cell text. */
  type Row = map<string, string>

  /**
   * `headers.index(name)`: the first position of `name`; `None` stands for
   * the `ValueError` raised when it is absent.
   */
  function ColumnIndex(headers: seq<string>, name: string): (r: Option<nat>)
    ensures r.None? <==> name !in headers
    ensures r.Some? ==> r.value < |headers| && headers[r.value] == name && name !in headers[..r.value]
  {
    if headers == [] then None
    else if headers[0] == name then Some(0)
    else
      match ColumnIndex(headers[1..], name)
      case None => None
      case Some(k) =>
        assert headers[..k + 1] == [headers[0]] + headers[1..][..k];
        Some(k + 1)
  }

  class Worksheet {
    /** Row 1: the column headers. */
    var header: seq<string>
    /** Rows 2 .. rows.Length + 1, as records keyed by header. */
    var rows: array<Row>

    constructor (header: seq<string>, records: seq<Row>)
      ensures this.header == header && rows[..] == records && fresh(rows)
    {
      this.header := header;
      rows := new Row[|records|](i requires 0 <= i < |records| => records[i]);
    }

    /** `get_all_records()`: every data row, in table order. */
    method GetAllRecords() returns (records: seq<Row>)
      ensures records == rows[..]
    {
      records := rows[..];
    }

    /** `row_values(1)`: the header row. */
    method HeaderRow() returns (h: seq<string>)
      ensures h == header
    {
      h := header;
    }

    /**
     * `update_cell(row, col, value)`: the cell of table row `row` (data rows
     * start at 2) under the `col`-th header (1-based) now holds `value`; no
     * other cell changes.
     */
    method UpdateCell(row: int, col: int, value: string)
      requires 2 <= row < rows.Length + 2 && 1 <= col <= |header|
      modifies rows
      ensures rows[..] == old(rows[..])[row - 2 := old(rows[row - 2])[header[col - 1] := value]]
    {
      rows[row - 2] := rows[row - 2][header[col - 1] := value];
    }
  }
}
