/**
 The statement text `addtable` builds for one CSV source: the table name,
 the column clause, `DROP TABLE IF EXISTS`, `CREATE TABLE` and one
 parameterised `INSERT` per data row. The header and the rows stand for
 what `csv.DictReader` yields: a row is a mapping from header field to value.
 */
module Loader {
  import opened Wrappers
  import opened Text
  import opened Sanitizer

  /** One statement handed to `cursor.execute`: its text and its bound parameters. */
  datatype Statement<V> = Statement(sql: string, params: seq<V>)

  /** A row as `csv.DictReader` yields it: header field to value. */
  type Row<V> = map<string, V>

  /** Python's truthiness of an optional string argument (`if not name:`). */
  predicate Given(arg: Option<string>)
  {
    arg.Some? && arg.value != ""
  }

  // ---------------------------------------------------------------------
  // Table name
  // ---------------------------------------------------------------------

  /** `os.path.basename(path)` on a POSIX path: the part after the last `/` (`BasenameSpec`). */
  function Basename(path: string): string
    decreases |path|
  {
    if path == [] || path[|path| - 1] == '/' then []
    else Basename(path[..|path| - 1]) + [path[|path| - 1]]
  }

  /** The basename is the suffix of the path that follows its last `/`, and holds no `/`. */
  lemma {:induction false} BasenameSpec(path: string)
    ensures var r := Basename(path);
            && '/' !in r
            && |r| <= |path| && r == path[|path| - |r|..]
            && (|r| < |path| ==> path[|path| - |r| - 1] == '/')
    decreases |path|
  {
    if path != [] && path[|path| - 1] != '/' {
      var front := path[..|path| - 1];
      BasenameSpec(front);
      var r := Basename(path);
      assert r == Basename(front) + [path[|path| - 1]];
      assert front[|front| - |Basename(front)|..] + [path[|path| - 1]] == path[|path| - |r|..];
      if |r| < |path| {
        assert path[|path| - |r| - 1] == front[|front| - |Basename(front)| - 1];
      }
    }
  }

  /** `sqlsafenames(os.path.basename(csvfile.name).split('.')[0])`. */
  function DefaultTableName(path: string): (r: string)
    ensures '.' !in r && '/' !in r
    ensures TriggerFree(r)
  {
    var stem := Split(Basename(path), ".")[0];
    BasenameSpec(path);
    SplitFirstPieceLacksSep(Basename(path), '.');
    assert Split(Basename(path), ".") == Split(Basename(path), ['.']);
    StemLacksSlash(Basename(path));
    SafeNameKeepsOut(stem, '.');
    SafeNameKeepsOut(stem, '/');
    SafeName(stem)
  }

  lemma StemLacksSlash(base: string)
    requires '/' !in base
    ensures '/' !in Split(base, ".")[0]
  {
    var f := FindIndex(base, ".");
    if f.Some? {
      assert Split(base, ".")[0] == base[..f.value];
    }
  }

  /** The table name: the caller's name when one is given, else the default one. */
  function TableName(path: string, name: Option<string>): string
  {
    if Given(name) then name.value else DefaultTableName(path)
  }

  // ---------------------------------------------------------------------
  // Column clause, DROP and CREATE
  // ---------------------------------------------------------------------

  /** Every field sanitised, in order. */
  function SanitizeAll(fields: seq<string>): (r: seq<string>)
    ensures |r| == |fields|
  {
    seq(|fields|, i requires 0 <= i < |fields| => SafeName(fields[i]))
  }

  /** The default column clause: the sanitised header fields joined by ", ". */
  function ColumnClause(header: seq<string>): string
  {
    Join(SanitizeAll(header), ", ")
  }

  /** The column clause used: the caller's pattern when one is given, else the default one. */
  function Pattern(header: seq<string>, pattern: Option<string>): string
  {
    if Given(pattern) then pattern.value else ColumnClause(header)
  }

  function DropSql(name: string): string
  {
    "DROP TABLE IF EXISTS " + name + ";"
  }

  function CreateSql(name: string, pattern: string): string
  {
    "CREATE TABLE " + name + " (" + pattern + ");"
  }

  /**
   The default column clause lists exactly the sanitised header fields, in
   header order: splitting it at ", " gives them back (a sanitised field
   holds no space, so it holds no separator).
   */
  lemma ColumnClauseFields(header: seq<string>)
    requires |header| >= 1
    ensures Split(ColumnClause(header), ", ") == SanitizeAll(header)
  {
    var fields := SanitizeAll(header);
    forall k | 0 <= k < |fields| ensures ' ' !in fields[k] {
      SanitizedLacksSpace(header[k]);
    }
    SplitJoin(fields, ", ");
  }

  lemma SanitizedLacksSpace(s: string)
    ensures ' ' !in SafeName(s)
  {
    var r := SafeName(s);
    forall k | 0 <= k < |r| ensures r[k] != ' ' {
      assert !IsTrigger(r[k]);
    }
  }

  // ---------------------------------------------------------------------
  // INSERT
  // ---------------------------------------------------------------------

  /** The names in order of first appearance: the key order of the dict `csv.DictReader` builds. */
  function FirstOccurrences(names: seq<string>): (r: seq<string>)
    ensures forall x :: x in r <==> x in names
    ensures forall i, j :: 0 <= i < j < |r| ==> r[i] != r[j]
    decreases |names|
  {
    if names == [] then []
    else
      var n := |names| - 1;
      var front := FirstOccurrences(names[..n]);
      assert forall x :: x in names <==> x in names[..n] || x == names[n];
      if names[n] in front then front else front + [names[n]]
  }

  /** Where a name first appears among the column names. */
  function FirstIndex(names: seq<string>, x: string): (k: nat)
    requires x in names
    ensures k < |names| && names[k] == x
    ensures forall q :: 0 <= q < k ==> names[q] != x
  {
    if names[0] == x then 0 else 1 + FirstIndex(names[1..], x)
  }

  /** A name's first appearance is the same in a prefix that holds it. */
  lemma FirstIndexPrefix(names: seq<string>, n: nat, x: string)
    requires n <= |names| && x in names[..n]
    ensures FirstIndex(names[..n], x) == FirstIndex(names, x)
  {
    var k' := FirstIndex(names[..n], x);
    assert names[k'] == names[..n][k'];
  }

  /** Every key is a column name, and the keys come in the order of their first appearance. */
  predicate InFirstOrder(names: seq<string>, keys: seq<string>)
  {
    && (forall k :: 0 <= k < |keys| ==> keys[k] in names)
    && forall i, j :: 0 <= i < j < |keys| ==> FirstIndex(names, keys[i]) < FirstIndex(names, keys[j])
  }

  /** The keys come in the order in which the names first appear among the column names. */
  lemma {:induction false} FirstOccurrencesInOrder(names: seq<string>)
    ensures InFirstOrder(names, FirstOccurrences(names))
    decreases |names|
  {
    if names != [] {
      var n := |names| - 1;
      var front := FirstOccurrences(names[..n]);
      FirstOccurrencesInOrder(names[..n]);
      forall x | x in front
        ensures FirstIndex(names[..n], x) == FirstIndex(names, x) < n
      {
        FirstIndexPrefix(names, n, x);
      }
      var r := FirstOccurrences(names);
      if names[n] !in front {
        assert names[n] !in names[..n];
        assert FirstIndex(names, names[n]) == n;
        assert r == front + [names[n]];
        forall i, j | 0 <= i < j < |r|
          ensures FirstIndex(names, r[i]) < FirstIndex(names, r[j])
        {
          assert r[i] == front[i] && front[i] in front;
          if j < |front| {
            assert r[j] == front[j] && front[j] in front;
            assert FirstIndex(names[..n], front[i]) < FirstIndex(names[..n], front[j]);
          }
        }
      } else {
        assert r == front;
        forall i, j | 0 <= i < j < |r|
          ensures FirstIndex(names, r[i]) < FirstIndex(names, r[j])
        {
          assert front[i] in front && front[j] in front;
          assert FirstIndex(names[..n], front[i]) < FirstIndex(names[..n], front[j]);
        }
      }
    }
  }

  /** Column names with no repetition come back unchanged. */
  lemma {:induction false} FirstOccurrencesOfDistinct(names: seq<string>)
    requires forall i, j :: 0 <= i < j < |names| ==> names[i] != names[j]
    ensures FirstOccurrences(names) == names
    decreases |names|
  {
    if names != [] {
      var n := |names| - 1;
      FirstOccurrencesOfDistinct(names[..n]);
      assert names[..n] + [names[n]] == names;
      assert names[n] !in names[..n];
    }
  }

  /** `','.join('?' * n)`: n question marks separated by commas. */
  function Placeholders(n: nat): string
  {
    Join(seq(n, _ => "?"), ",")
  }

  /** The INSERT text for a table and the row's keys; it depends on no value. */
  function InsertSql(name: string, keys: seq<string>): string
  {
    "\n            INSERT INTO " + name + "\n            (" + Join(SanitizeAll(keys), ", ")
    + ") VALUES (" + Placeholders(|keys|) + ")\n        "
  }

  /** One row's INSERT: its keys sanitised as the field list, its values in the same order as parameters. */
  function Insert<V>(name: string, header: seq<string>, row: Row<V>): Statement<V>
    requires row.Keys == set k | k in header
  {
    var keys := FirstOccurrences(header);
    Statement(InsertSql(name, keys), seq(|keys|, i requires 0 <= i < |keys| => row[keys[i]]))
  }

  /** Every row has exactly the header fields as keys, as `csv.DictReader` yields them. */
  predicate KeyedBy<V>(header: seq<string>, rows: seq<Row<V>>)
  {
    forall i :: 0 <= i < |rows| ==> rows[i].Keys == set k | k in header
  }

  /** Every statement `addtable` executes, in order. */
  function AddTable<V>(path: string, header: seq<string>, rows: seq<Row<V>>,
                       name: Option<string>, pattern: Option<string>): seq<Statement<V>>
    requires KeyedBy(header, rows)
  {
    var table := TableName(path, name);
    [Statement(DropSql(table), []), Statement(CreateSql(table, Pattern(header, pattern)), [])]
    + seq(|rows|, i requires 0 <= i < |rows| => Insert(table, header, rows[i]))
  }

  /** The placeholder list holds exactly n question marks, one per comma-separated piece. */
  lemma {:induction false} PlaceholdersCount(n: nat)
    ensures CountChar(Placeholders(n), '?') == n
    ensures n >= 1 ==> Split(Placeholders(n), ",") == seq(n, _ => "?")
    decreases n
  {
    var qs := seq(n, _ => "?");
    if n >= 2 {
      PlaceholdersCount(n - 1);
      assert qs[1..] == seq(n - 1, _ => "?");
      assert Placeholders(n) == "?" + "," + Placeholders(n - 1);
      CountCharConcat("?" + ",", Placeholders(n - 1), '?');
      CountCharConcat("?", ",", '?');
    } else if n == 1 {
      assert Placeholders(1) == "?";
    }
    if n >= 1 {
      SplitJoin(qs, ",");
    }
  }

  /**
   An INSERT binds one parameter per question mark of its placeholder list,
   and when neither the table name nor any header field holds a `?`, its
   whole text holds exactly as many `?` as it binds parameters. The
   parameters are the row's values in key order, and the field list names
   the sanitised keys in that same order.
   */
  lemma InsertShape<V>(name: string, header: seq<string>, row: Row<V>)
    requires row.Keys == set k | k in header
    ensures var keys := FirstOccurrences(header);
            var st := Insert(name, header, row);
            && |st.params| == |keys| == CountChar(Placeholders(|keys|), '?')
            && (forall i :: 0 <= i < |keys| ==> st.params[i] == row[keys[i]])
            && ('?' !in name && (forall f :: f in header ==> '?' !in f) ==> CountChar(st.sql, '?') == |st.params|)
            && (|keys| >= 1 ==> Split(Join(SanitizeAll(keys), ", "), ", ") == SanitizeAll(keys))
  {
    var keys := FirstOccurrences(header);
    PlaceholdersCount(|keys|);
    if |keys| >= 1 {
      ColumnClauseFields(keys);
    }
    if '?' !in name && (forall f :: f in header ==> '?' !in f) {
      InsertMarks(name, keys);
    }
  }

  /** The `?` of an INSERT text are those of its placeholder list when name and keys hold none. */
  lemma InsertMarks(name: string, keys: seq<string>)
    requires '?' !in name && forall k :: 0 <= k < |keys| ==> '?' !in keys[k]
    ensures CountChar(InsertSql(name, keys), '?') == |keys|
  {
    var fields := SanitizeAll(keys);
    forall k | 0 <= k < |fields| ensures '?' !in fields[k] {
      SafeNameKeepsOut(keys[k], '?');
    }
    JoinKeepsOut(fields, ", ", '?');
    CountCharAbsent(name, '?');
    CountCharAbsent(Join(fields, ", "), '?');
    PlaceholdersCount(|keys|);
    InsertSqlMarks(name, keys);
  }

  /** The `?` of an INSERT text: those of the name, the field list and the placeholder list. */
  lemma InsertSqlMarks(name: string, keys: seq<string>)
    ensures CountChar(InsertSql(name, keys), '?')
         == CountChar(name, '?') + CountChar(Join(SanitizeAll(keys), ", "), '?')
          + CountChar(Placeholders(|keys|), '?')
  {
    var a, b, c, d := "\n            INSERT INTO ", "\n            (", ") VALUES (", ")\n        ";
    InsertTextMarkFree(a, b, c, d);
    CountSeven(a, name, b, Join(SanitizeAll(keys), ", "), c, Placeholders(|keys|), d, '?');
  }

  /** The fixed parts of the INSERT text hold no `?`. */
  lemma InsertTextMarkFree(a: string, b: string, c: string, d: string)
    requires a == "\n            INSERT INTO " && b == "\n            (" && c == ") VALUES (" && d == ")\n        "
    ensures CountChar(a, '?') == 0 && CountChar(b, '?') == 0 && CountChar(c, '?') == 0 && CountChar(d, '?') == 0
  {
    assert '?' !in a && '?' !in b && '?' !in c && '?' !in d;
    CountCharAbsent(a, '?');
    CountCharAbsent(b, '?');
    CountCharAbsent(c, '?');
    CountCharAbsent(d, '?');
  }

  lemma CountSeven(a: string, b: string, c: string, d: string, e: string, f: string, g: string, ch: char)
    ensures CountChar(a + b + c + d + e + f + g, ch)
         == CountChar(a, ch) + CountChar(b, ch) + CountChar(c, ch) + CountChar(d, ch)
          + CountChar(e, ch) + CountChar(f, ch) + CountChar(g, ch)
  {
    CountCharConcat(a, b, ch);
    CountCharConcat(a + b, c, ch);
    CountCharConcat(a + b + c, d, ch);
    CountCharConcat(a + b + c + d, e, ch);
    CountCharConcat(a + b + c + d + e, f, ch);
    CountCharConcat(a + b + c + d + e + f, g, ch);
  }

  /**
   With distinct header fields (what a well-formed header gives) the INSERT's
   parameters are the row's values field by field in header order.
   */
  lemma InsertDistinctHeader<V>(name: string, header: seq<string>, row: Row<V>)
    requires row.Keys == set k | k in header
    requires forall i, j :: 0 <= i < j < |header| ==> header[i] != header[j]
    ensures |Insert(name, header, row).params| == |header|
    ensures forall i :: 0 <= i < |header| ==> Insert(name, header, row).params[i] == row[header[i]]
  {
    var keys := FirstOccurrences(header);
    FirstOccurrencesOfDistinct(header);
    assert keys == header;
    var params := Insert(name, header, row).params;
    assert |params| == |keys|;
    forall i | 0 <= i < |header| ensures params[i] == row[header[i]] {
      assert params[i] == row[keys[i]];
    }
  }

  /**
   The text of every statement is the same whatever the row values are:
   values reach the engine only as bound parameters.
   */
  lemma AddTableTextIgnoresValues<V>(path: string, header: seq<string>, rows1: seq<Row<V>>, rows2: seq<Row<V>>,
                                     name: Option<string>, pattern: Option<string>)
    requires KeyedBy(header, rows1)
    requires KeyedBy(header, rows2)
    requires |rows1| == |rows2|
    ensures var s1 := AddTable(path, header, rows1, name, pattern);
            var s2 := AddTable(path, header, rows2, name, pattern);
            |s1| == |s2| && forall i :: 0 <= i < |s1| ==> s1[i].sql == s2[i].sql
  {
  }

  /**
   `addtable` drops the table, then creates it, then inserts one row per
   data row in order; DROP and CREATE bind no parameter.
   */
  lemma AddTableOrder<V>(path: string, header: seq<string>, rows: seq<Row<V>>,
                         name: Option<string>, pattern: Option<string>)
    requires KeyedBy(header, rows)
    ensures var stmts := AddTable(path, header, rows, name, pattern);
            var table := TableName(path, name);
            && |stmts| == 2 + |rows|
            && stmts[0] == Statement(DropSql(table), [])
            && stmts[1] == Statement(CreateSql(table, Pattern(header, pattern)), [])
            && forall i :: 0 <= i < |rows| ==> stmts[2 + i] == Insert(table, header, rows[i])
  {
    var stmts := AddTable(path, header, rows, name, pattern);
    var table := TableName(path, name);
    var head := [Statement(DropSql(table), []), Statement(CreateSql(table, Pattern(header, pattern)), [])];
    var inserts := seq(|rows|, i requires 0 <= i < |rows| => Insert(table, header, rows[i]));
    assert stmts == head + inserts;
    forall i | 0 <= i < |rows| ensures stmts[2 + i] == Insert(table, header, rows[i]) {
      assert stmts[2 + i] == inserts[i];
    }
  }
}
