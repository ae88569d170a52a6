# CSV SQLite Search, modelled in Dafny

CSVSearch loads CSV files into an SQLite database and lets the user query
them. Queries come from the command line with `-s` or from an interactive
prompt. Piped standard input is not a source of queries: it is loaded as the
table `input` and queried with `SELECT * FROM input` (or with the `-s`
statement), after which the session quits. Results are displayed as a table or
written back out as CSV. This project models the text handling around the database
engine, as written in `CSVSearch.py`, and proves properties of it:

- `sqlsafenames`, the identifier sanitiser: a fold of `str.replace` over a
  replacement table (`sanitizer.dfy`, module `Sanitizer`).
- `dict_factory`, which turns a result row into a column-name-to-value
  mapping (`rows.dfy`, module `Rows`).
- The statement text `addtable` builds for one CSV source (`loader.dfy`,
  module `Loader`):
  - the default table name and the default column clause;
  - `DROP TABLE IF EXISTS` and `CREATE TABLE`;
  - one parameterised `INSERT` per row, from an already-parsed header and
    rows.
- `writeresults`, the CSV export, as a method that appends to an output
  stream object (`export.dfy`, module `Export`).
- The command classifier: the branch chain of the interactive loop, over
  one stripped input line (`commands.dfy`, module `Commands`).
- The main block (`session.dfy`, module `Session`):
  - start-up: the `-` database argument, piped input, and a statement that
    makes the loop start in the quit state;
  - the loop, as a method over a sequence of input lines, proved against a
    specification function.

  The engine, the terminal and the file system are not executed. Instead,
  the session yields the ordered list of effects it asks of them: load a
  file, export a query, show a query, write to standard output, prompt,
  commit, close, and so on.

The Python string operations the code relies on are written out in
`text.dfy` (module `Text`):

- `str.replace`, including the empty-pattern case.
- `str.split(sep)` with no limit, and `str.split(sep, 1)`.
- `sep.join`.
- `str.strip` with Python's whitespace set.
- ASCII `str.lower`.
- Slicing `s[:n]`.

`wrappers.dfy` holds the `Option` type.

Two paths are modelled as the code behaves, not as the help text suggests:

- `columns` with no space reaches `data[1]` of a one-piece list and raises
  an uncaught `IndexError`. The "No table name provided" message is
  unreachable.
- `import` with no space writes "No file name provided" to standard error.
  It then calls `os.access(None, …)`, which raises.

Both end the session as `Crashed`.

The code has no `;`-separated statement batches and no output-suppression
marker, and the model has none either:

- A line is never split on `;`.
- `!` is not special.
- A `>>` target is whatever follows the first `>>`, up to the next one,
  stripped.

Dictionaries are taken in insertion order, as Python 3.7 and later
guarantee. This covers the key order of a row that `csv.DictReader` builds
(`Loader.FirstOccurrences`) and the iteration order of the replacement
table (`Sanitizer.ApplyAll`). For the default table the order does not
matter (`Sanitizer.DefaultOrderIrrelevant`).

## Model

| member | source | states |
|---|---|---|
| Sanitizer.SqlSafeNames | CSVSearch.py:54-64 | an absent or empty replacement table means the default one; with it the result holds no space, `-`, `#` or `%`, and is never shorter than the input |
| Sanitizer.SafeNameKeepsCleanLabel | CSVSearch.py:55-64 | a label with none of the four trigger characters comes back unchanged |
| Sanitizer.SafeNameIdempotent | CSVSearch.py:55-64 | sanitising a second time changes nothing |
| Sanitizer.EmptyTableIsDefault | CSVSearch.py:55-61 | an empty table, an absent table and the explicit default table give the same result |
| Sanitizer.SafeNameExample | CSVSearch.py:56-63 | `"A B-C#D%E"` becomes `"A_B_CNUMDPERCENTE"` |
| Sanitizer.SafeNameKeepsOut | CSVSearch.py:56-63 | a character found neither in the label nor in any default replacement is not in the result |
| Sanitizer.DefaultOrderIrrelevant | CSVSearch.py:62-63 | applying the four default replacements in any order gives the same result as the default sanitiser, so the dictionary's iteration order cannot change it |
| Rows.DictFactory | CSVSearch.py:67-71 | the keys are exactly the column names, and each name maps to the value of the last column that carries it |
| Rows.DictFactoryDistinct | CSVSearch.py:67-71 | with distinct column names the i-th name maps to the i-th value |
| Loader.BasenameSpec | CSVSearch.py:77 | the basename is the suffix after the last `/`, and holds no `/` |
| Loader.DefaultTableName | CSVSearch.py:76-77 | the default table name holds no `.`, no `/` and no trigger character |
| Loader.ColumnClauseFields | CSVSearch.py:79-83 | splitting the default column clause at `", "` gives back the sanitised header fields, in header order |
| Loader.FirstOccurrences | CSVSearch.py:88-93 | a row's key order has the same names as the header, each once |
| Loader.FirstOccurrencesInOrder | CSVSearch.py:88-93 | a row's keys come in the order in which the names first appear in the header |
| Loader.FirstOccurrencesOfDistinct | CSVSearch.py:88-93 | with distinct header fields the key order is the header order |
| Loader.PlaceholdersCount | CSVSearch.py:97 | `','.join('?' * n)` holds n question marks, one per comma-separated piece |
| Loader.InsertShape | CSVSearch.py:88-98 | there is one parameter per placeholder; the parameters are the row's values in key order; the field list splits back into the sanitised keys; with no `?` in the name or the fields, the INSERT text holds exactly one `?` per parameter |
| Loader.InsertMarks | CSVSearch.py:94-97 | the `?` count of the INSERT text equals the number of keys, when neither name nor keys hold a `?` |
| Loader.InsertDistinctHeader | CSVSearch.py:88-98 | with distinct header fields the parameters are the row's values field by field, in header order |
| Loader.AddTableTextIgnoresValues | CSVSearch.py:84-98 | the text of every statement is independent of the row values: values travel only as bound parameters |
| Loader.AddTableOrder | CSVSearch.py:84-98 | DROP comes first, then CREATE, then one INSERT per row in order; DROP and CREATE bind no parameters |
| Export.Sink.Write | CSVSearch.py:118 | writing appends the text to the stream |
| Export.WriteResults | CSVSearch.py:114-123 | the stream receives the export lines after what it already held |
| Export.RowItems | CSVSearch.py:120-122 | the inner loop collects, in column order, the row's value under each of the first `len(row.keys())` column names |
| Export.WrittenLines | CSVSearch.py:118-123 | after the header and n rows the stream holds exactly the first n + 1 export lines |
| Export.ExportLinesShape | CSVSearch.py:114-123 | there are 1 + the row count lines, each ending in a newline; the first is the column names joined by `,`, and each later one a row's values joined by `,` |
| Export.FactoryRowValues | CSVSearch.py:119-122 | a row built by `dict_factory` over distinct names is readable, and the values read back from it are the row's values in column order |
| Export.FactoryTable | CSVSearch.py:67-71 | rows built by `dict_factory` over distinct names are all readable, and each gives back its own values |
| Export.ExportOfFactoryRows | CSVSearch.py:119-123 | for rows built by `dict_factory` over distinct names, each row line carries the row's values in column order |
| Export.RepeatedNamesShortenRows | CSVSearch.py:119-123 | with a repeated column name, a row line carries fewer values than the header has names (`len(row.keys())`) |
| Export.RowLineRoundTrip | CSVSearch.py:123 | when no value holds a comma, splitting a row line at the commas gives back the row's values |
| Commands.Argument | CSVSearch.py:183 | the argument is absent exactly when the line has no space; otherwise it is the text after the first space |
| Commands.Classify | CSVSearch.py:167-212 | a line is `Quit` exactly when its lowercase form is `quit`, `exit` or `q` |
| Commands.ClassifyOrder | CSVSearch.py:169-212 | `h`/`help` give Help, `clear` Clear, `version` Version and `tables` Tables, compared in lowercase; after the exact words, `columns` wins over `import`; every other line is a query |
| Commands.QuerySplit | CSVSearch.py:213-217 | the statement is the text before the first `>>` and holds no `>>`; there is a target exactly when the line holds `>>`; without one the statement is the whole line |
| Commands.QueryTarget | CSVSearch.py:214-219 | the target is the second `>>`-separated piece, stripped, even when it is the last piece and ends in `>`; later pieces are ignored |
| Text.StripSpec | CSVSearch.py:229 | a stripped line is a contiguous part of the line, with only whitespace removed around it and none left at its ends |
| Text.StripIdempotent | CSVSearch.py:229 | stripping twice equals stripping once |
| Session.Database | CSVSearch.py:146-147 | `-` becomes `:memory:`; any other argument is kept; the database connected to is never `-` |
| Session.StartOrder | CSVSearch.py:149-165 | start-up connects, loads every file in order, and commits; it loads piped input exactly when stdin is not a terminal, and exports only the start-up statement |
| Session.StatementSkipsLoop | CSVSearch.py:163-167 | with a statement, its result is exported and the session quits with a commit and a close, never prompting |
| Session.PipedInput | CSVSearch.py:156-162 | piped input is loaded; without `-s` the statement is `SELECT * FROM input`; the session then quits |
| Session.InteractiveStartsWithUsage | CSVSearch.py:148-170 | an interactive session without a statement exports nothing; right after start-up it shows the usage text and prompts |
| Session.RunSession | CSVSearch.py:146-231 | the main block produces exactly the effects and outcome of the session specification |
| Session.RunLoop | CSVSearch.py:167-229 | the loop produces exactly the effects and outcome of the trace of its classified lines |
| Session.ResumeIsTrace | CSVSearch.py:167-229 | running on from line i after the effects produced so far yields those effects followed by the trace of the remaining lines |
| Session.ReadLine | CSVSearch.py:228-229 | the line read is the stripped input line; it is a quit word exactly when it classifies as `Quit` |
| Session.ClassifiedAt | CSVSearch.py:228-229 | the loop classifies each input line after stripping it |
| Session.TraceEnds | CSVSearch.py:167-231 | quitting ends with commit then close; a run that raises or runs out of input never closes; running out of input means no quit word was seen |
| Session.EndOfInputMeansNoQuitWord | CSVSearch.py:167-229 | a session that runs out of input met no quit word, in its first line or in any stripped input line |
| Session.QueryLineDispatch | CSVSearch.py:212-223 | a line that reaches the query branch runs one statement without raising: without `>>` the whole line is displayed, with `>>` the `>>`-free text before the first `>>` is redirected |
| Session.EmptyLineIsEmptyQuery | CSVSearch.py:212-217 | an empty input line is the query `""` with no target, displayed, and the loop goes on |
| Session.PromptsPerLine | CSVSearch.py:225-228 | a session that runs out of input prompted once per classified line |
| Session.QuitFirst | CSVSearch.py:148-231 | an interactive session whose first line is a quit word shows usage, prompts once, commits and closes |
| Session.QuitIsQuitWord | CSVSearch.py:166-167 | the start-up's `quit` stops the loop |
| Session.HelpIsNotQuitWord | CSVSearch.py:148-170 | the initial `help` enters the loop and shows the usage text |
| Session.ColumnsWithoutTable | CSVSearch.py:181-191 | a `columns` line without a space raises before anything is executed |
| Session.ImportWithoutFile | CSVSearch.py:196-205 | an `import` line without a space reports the missing name, then raises |

## Left out

- The SQLite engine:
  - `connect`, `execute`, `fetchall`, `commit` and `close` appear only as effects in the session trace.
  - A query's result, and an engine error the query branch catches and reports, are not modelled.
  - `addtable` is modelled as the statements it hands the engine.
- `csv.DictReader`: the header and rows are taken as already parsed. A row is a mapping from exactly the header fields to values. A row longer than its header (which `DictReader` stores under the key `None`) is not modelled.
- Uncaught exceptions from the engine and the loader:
  - Several calls run outside any `try`:
    - the `tables` query and the `columns <table>` `PRAGMA` query and display (CSVSearch.py lines 179-192);
    - `addtable` for `import` (line 206) and at start-up (lines 152 and 160);
    - the `-s` statement and its export (lines 164-165).
  - In the source an exception there ends the program. The model treats these calls as succeeding, and only the two missing-argument paths of `columns` and `import` end the session as `Crashed`.
- Session.StatementSkipsLoop: promises a commit and close after any `-s` statement. In the source a statement the engine rejects, or one without a result description, raises first. This is not modelled; see the previous item.
- Session.RunSession: its trace assumes the engine calls above succeed; see the same item.
- `displaytable` and PrettyTable rendering: a displayed query is the effect `Show(sql)`. An engine or display error in the query branch is caught and written to stderr by the source (lines 222-223); `Show` and `Redirect` stand for the whole `try` block, so the model does not separate success from a reported error.
- The terminal:
  - `clear` (`cls`, which calls `os.system`) appears as the single effect `ClearScreen`.
  - `sleep(1)`, the `>>> ` prompt and `flush` together appear as the single effect `Prompt`.
  - `isatty` is a parameter.
  - `sys.stdin.readline` is the sequence of input lines, and `StringIO` buffering is left out.
- The file system:
  - `import` with a name is the effect `ImportFile(name)`. The `os.access` check and the "is not a valid file" message are not modelled.
  - A redirect is the effect `Redirect(sql, target)`, and opening the target is not modelled. That includes the empty target, whose `open('')` error is caught and reported.
- Session.RunSession: the source never stops at end of input. On a terminal, Ctrl-D makes `readline` return `''` once; that empty line runs as an empty query, whose failure is caught and reported, and the loop then prompts and waits again. The model expresses this as an input line `""` (Session.EmptyLineIsEmptyQuery). The model stops when its input lines run out and reports `EndOfInput`.
- `argparse`: the database, file and `-s` arguments arrive already parsed, and `--version` is left out. `sys.argv[0]` is a parameter of the version line.
- Text.Lower: only ASCII letters are lowered, where Python's `str.lower` also lowers other Unicode letters.
- Export.WriteResults: values are strings. `','.join` on a non-string SQLite value raises in the source, and that case is not modelled.
- Loader.Basename: POSIX paths only (`/` as the separator).
