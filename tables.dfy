/**
 * Rich's `Table` as far as `metadata_table` uses it, and `metadata_table`
 * itself: one (Field, Value) row per metadata entry.
 */
module Tables {

  /** A table with fixed column headers and rows appended one at a time. */
  class Table {
    const headers: seq<string>
    var rows: seq<seq<string>>

    /** `Table(*headers)`: no rows yet. */
    constructor (headers: seq<string>)
      ensures this.headers == headers && rows == []
    {
      this.headers := headers;
      rows := [];
    }

    /** `table.add_row(*cells)`: appends one row after the existing ones. */
    method AddRow(cells: seq<string>)
      modifies this
      ensures rows == old(rows) + [cells]
    {
      rows := rows + [cells];
    }
  }

  /**
   * `metadata_table(filepath, metadata)`: headers "Field" and "Value", then
   * row i is the key of entry i and `str` of its value; nothing is sorted,
   * dropped or merged.  The file path is not used.
   */
  method MetadataTable<V>(filepath: string, m: seq<(string, V)>, str: V -> string) returns (table: Table)
    ensures fresh(table)
    ensures table.headers == ["Field", "Value"]
    ensures |table.rows| == |m|
    ensures forall i :: 0 <= i < |m| ==> table.rows[i] == [m[i].0, str(m[i].1)]
  {
    table := new Table(["Field", "Value"]);
    for i := 0 to |m|
      invariant table.headers == ["Field", "Value"]
      invariant |table.rows| == i
      invariant forall k :: 0 <= k < i ==> table.rows[k] == [m[k].0, str(m[k].1)]
    {
      var (key, value) := m[i];
      table.AddRow([key, str(value)]);
    }
  }
}
