/**
 The CSV export `writeresults`: a header line of the column names joined
 by commas, then one line per row with the row's values in column order,
 written to an output stream.
 */
module Export {
  import opened Text
  import Rows

  /** A writable text stream (a file opened for writing, or standard output). */
  class Sink {
    var text: string

    constructor ()
      ensures text == ""
    {
      text := "";
    }

    /** `fn.write(s)`. */
    method Write(s: string)
      modifies this
      ensures text == old(text) + s
    {
      text := text + s;
    }
  }

  /** A result row as `dict_factory` builds it: column name to value. */
  type Row = map<string, string>

  /**
   What `writeresults` needs of a row: `range(0, len(row.keys()))` indexes
   the column names, and each of those names is a key of the row.
   */
  predicate Readable(headers: seq<string>, row: Row)
  {
    |row.Keys| <= |headers| && forall col :: 0 <= col < |row.Keys| ==> headers[col] in row
  }

  /** Every row of the result can be written against the column names. */
  predicate AllReadable(headers: seq<string>, table: seq<Row>)
  {
    forall i :: 0 <= i < |table| ==> Readable(headers, table[i])
  }

  /** The values one row contributes: `row[headers[col]]` for `col` below `len(row.keys())`. */
  function RowValues(headers: seq<string>, row: Row): (items: seq<string>)
    requires Readable(headers, row)
    ensures |items| == |row.Keys|
  {
    seq(|row.Keys|, col requires 0 <= col < |row.Keys| => row[headers[col]])
  }

  /** The lines `writeresults` writes, each with its newline. */
  function ExportLines(headers: seq<string>, table: seq<Row>): seq<string>
    requires AllReadable(headers, table)
  {
    [Join(headers, ",") + "\n"]
    + seq(|table|, i requires 0 <= i < |table| => Join(RowValues(headers, table[i]), ",") + "\n")
  }

  /** The lines run together, as they reach the stream. */
  function Concat(lines: seq<string>): string
  {
    if lines == [] then "" else lines[0] + Concat(lines[1..])
  }

  lemma {:induction false} ConcatAppend(lines: seq<string>, line: string)
    ensures Concat(lines + [line]) == Concat(lines) + line
    decreases |lines|
  {
    if lines != [] {
      ConcatAppend(lines[1..], line);
      assert (lines + [line])[1..] == lines[1..] + [line];
    }
  }

  /** The header line and the first `n` row lines, run together. */
  function Written(headers: seq<string>, table: seq<Row>, n: nat): string
    requires AllReadable(headers, table) && n <= |table|
  {
    if n == 0 then Join(headers, ",") + "\n"
    else Written(headers, table, n - 1) + Join(RowValues(headers, table[n - 1]), ",") + "\n"
  }

  /** What has been written after `n` rows is the first `n + 1` export lines. */
  lemma {:induction false} WrittenLines(headers: seq<string>, table: seq<Row>, n: nat)
    requires AllReadable(headers, table) && n <= |table|
    ensures Written(headers, table, n) == Concat(ExportLines(headers, table)[..n + 1])
  {
    if n == 0 {
      var lines := ExportLines(headers, table);
      assert lines[..1] == [lines[0]];
      assert Concat(lines[..1]) == lines[0] + Concat([]);
    } else {
      WrittenLines(headers, table, n - 1);
      ExportPrefixGrows(headers, table, n);
    }
  }

  /** One more row line extends the export text by that line. */
  lemma ExportPrefixGrows(headers: seq<string>, table: seq<Row>, n: nat)
    requires AllReadable(headers, table) && 0 < n <= |table|
    ensures Concat(ExportLines(headers, table)[..n + 1])
         == Concat(ExportLines(headers, table)[..n]) + Join(RowValues(headers, table[n - 1]), ",") + "\n"
  {
    var lines := ExportLines(headers, table);
    var line := Join(RowValues(headers, table[n - 1]), ",") + "\n";
    assert lines[n] == line;
    ConcatAppend(lines[..n], line);
    assert lines[..n + 1] == lines[..n] + [line];
  }

  /**
   `writeresults(cursor, table, fn)`: the stream receives the export lines,
   after whatever it already held.
   */
  method WriteResults(headers: seq<string>, table: seq<Row>, fn: Sink)
    requires AllReadable(headers, table)
    modifies fn
    ensures fn.text == old(fn.text) + Concat(ExportLines(headers, table))
  {
    fn.Write(Join(headers, ",") + "\n");
    var i := 0;
    while i < |table|
      invariant 0 <= i <= |table|
      invariant fn.text == old(fn.text) + Written(headers, table, i)
    {
      var items := RowItems(headers, table[i]);
      fn.Write(Join(items, ",") + "\n");
      i := i + 1;
    }
    WrittenLines(headers, table, |table|);
    assert ExportLines(headers, table)[..|table| + 1] == ExportLines(headers, table);
  }

  /** The inner loop of `writeresults`: `row[headers[col]]` for each `col` below `len(row.keys())`. */
  method RowItems(headers: seq<string>, row: Row) returns (items: seq<string>)
    requires Readable(headers, row)
    ensures items == RowValues(headers, row)
  {
    items := [];
    var col := 0;
    while col < |row.Keys|
      invariant 0 <= col <= |row.Keys|
      invariant items == RowValues(headers, row)[..col]
    {
      items := items + [row[headers[col]]];
      col := col + 1;
    }
  }

  /**
   The export has one line per row plus the header line; every line ends in
   a newline; the first holds the column names, the others the row values.
   */
  lemma ExportLinesShape(headers: seq<string>, table: seq<Row>)
    requires AllReadable(headers, table)
    ensures var lines := ExportLines(headers, table);
            && |lines| == 1 + |table|
            && (forall k :: 0 <= k < |lines| ==> |lines[k]| >= 1 && lines[k][|lines[k]| - 1] == '\n')
            && lines[0] == Join(headers, ",") + "\n"
            && forall i :: 0 <= i < |table| ==> lines[i + 1] == Join(RowValues(headers, table[i]), ",") + "\n"
  {
  }

  /**
   The rows `dict_factory` builds for a result whose rows all have one value
   per column: with distinct column names every row is readable and gives
   back its values in column order.
   */
  function FactoryTable(names: seq<string>, values: seq<seq<string>>): (table: seq<Row>)
    requires Rows.Distinct(names)
    requires forall k :: 0 <= k < |values| ==> |values[k]| == |names|
    ensures |table| == |values| && AllReadable(names, table)
    ensures forall i :: 0 <= i < |values| ==> RowValues(names, table[i]) == values[i]
  {
    var table := seq(|values|, i requires 0 <= i < |values| => Rows.DictFactory(names, values[i]));
    assert forall i :: 0 <= i < |values| ==> table[i] == Rows.DictFactory(names, values[i]);
    FactoryRowsValues(names, values, table);
    table
  }

  lemma FactoryRowsValues(names: seq<string>, values: seq<seq<string>>, table: seq<Row>)
    requires Rows.Distinct(names) && |table| == |values|
    requires forall k :: 0 <= k < |values| ==> |values[k]| == |names| && table[k] == Rows.DictFactory(names, values[k])
    ensures AllReadable(names, table)
    ensures forall i :: 0 <= i < |values| ==> RowValues(names, table[i]) == values[i]
  {
    forall i | 0 <= i < |values|
      ensures Readable(names, table[i]) && RowValues(names, table[i]) == values[i]
    {
      FactoryRowValues(names, values[i]);
    }
  }

  /** A row built by `dict_factory` over distinct names is readable and gives back its values in column order. */
  lemma FactoryRowValues(names: seq<string>, v: seq<string>)
    requires Rows.Distinct(names) && |v| == |names|
    ensures Readable(names, Rows.DictFactory(names, v))
    ensures RowValues(names, Rows.DictFactory(names, v)) == v
  {
    Rows.DictFactoryDistinct(names, v);
    DistinctKeyCount(names);
  }

  /**
   When the column names are distinct, each exported row line of rows built
   by `dict_factory` carries the row's values in column order.
   */
  lemma ExportOfFactoryRows(names: seq<string>, values: seq<seq<string>>)
    requires Rows.Distinct(names)
    requires forall k :: 0 <= k < |values| ==> |values[k]| == |names|
    ensures forall i :: 0 <= i < |values| ==>
              ExportLines(names, FactoryTable(names, values))[i + 1] == Join(values[i], ",") + "\n"
  {
    var table := FactoryTable(names, values);
    var lines := ExportLines(names, table);
    forall i | 0 <= i < |values|
      ensures lines[i + 1] == Join(values[i], ",") + "\n"
    {
      assert lines[i + 1] == Join(RowValues(names, table[i]), ",") + "\n";
    }
  }

  /** Distinct names form a key set of the same size; repeated names a smaller one. */
  lemma {:induction false} DistinctKeyCount(names: seq<string>)
    ensures |set i | 0 <= i < |names| :: names[i]| <= |names|
    ensures Rows.Distinct(names) <==> |set i | 0 <= i < |names| :: names[i]| == |names|
    decreases |names|
  {
    if names != [] {
      var n := |names| - 1;
      var front := set i | 0 <= i < n :: names[..n][i];
      DistinctKeyCount(names[..n]);
      Rows.KeysOfPrefix(names);
      if Rows.Distinct(names) {
        assert names[n] !in front;
      } else if Rows.Distinct(names[..n]) {
        var i, j :| 0 <= i < j < |names| && names[i] == names[j];
        assert j == n;
        assert names[..n][i] in front;
      }
    }
  }

  /**
   `writeresults` reads `len(row.keys())` values per row: with a repeated
   column name, rows built by `dict_factory` are still readable but their
   lines carry fewer values than the header line carries names.
   */
  lemma RepeatedNamesShortenRows(names: seq<string>, values: seq<string>)
    requires |values| == |names| && !Rows.Distinct(names)
    ensures Readable(names, Rows.DictFactory(names, values))
    ensures |RowValues(names, Rows.DictFactory(names, values))| < |names|
  {
    DistinctKeyCount(names);
    var row := Rows.DictFactory(names, values);
    forall col | 0 <= col < |row.Keys| ensures names[col] in row {
    }
  }

  /**
   With no comma in any value, splitting a row line (without its newline) at
   the commas gives back the row's values: the line format loses nothing.
   */
  lemma RowLineRoundTrip(headers: seq<string>, row: Row)
    requires Readable(headers, row) && |row.Keys| >= 1
    requires forall k :: k in row ==> ',' !in row[k]
    ensures Split(Join(RowValues(headers, row), ","), ",") == RowValues(headers, row)
  {
    var items := RowValues(headers, row);
    forall col | 0 <= col < |items| ensures ',' !in items[col] {
      assert headers[col] in row;
    }
    SplitJoin(items, ",");
  }
}
