/**
 The command classifier: the branch chain of the interactive loop, which
 looks at one stripped input line and decides what it asks for. The
 branches are tried in a fixed order: the quit words, `h`/`help`,
 `clear`, `version`, `tables` (exact matches after lowercasing), then the
 `columns` and `import` prefixes, and everything else is a query.
 */
module Commands {
  import opened Wrappers
  import opened Text

  /** What one input line asks for. */
  datatype Command =
    | Quit
    | Help
    | Clear
    | Version
    | Tables
      /** `columns <table>`; None when the line has no space, where the source's `data[1]` raises. */
    | Columns(table: Option<string>)
      /** `import <file>`; None when the line has no space, where the source's `[1]` raises. */
    | Import(file: Option<string>)
      /** A statement for the engine, and the file its result is written to when `>>` is present. */
    | Query(sql: string, target: Option<string>)

  /** The redirect marker. */
  const REDIRECT := ">>"

  /** `data.lower() in ('quit', 'exit', 'q')`: the loop condition's stop words. */
  predicate IsQuitWord(line: string)
  {
    Lower(line) in {"quit", "exit", "q"}
  }

  /** The text after the first space, as `data.split(' ', 1)[1]`, or None when there is none. */
  function Argument(line: string): (r: Option<string>)
    ensures r.None? <==> ' ' !in line
    ensures r.Some? ==> exists head :: ' ' !in head && line == head + " " + r.value
  {
    var parts := SplitOnce(line, " ");
    if |parts| == 2 then
      ArgumentWitness(line, parts[0], parts[1]);
      Some(parts[1])
    else
      SpaceOccurs(line);
      None
  }

  lemma ArgumentWitness(line: string, head: string, rest: string)
    requires head + " " + rest == line && !Contains(head, " ")
    ensures ' ' !in head
    ensures exists h :: ' ' !in h && line == h + " " + rest
  {
    SpaceOccurs(head);
  }

  /** A space character occurs exactly when the one-character pattern " " does. */
  lemma SpaceOccurs(s: string)
    ensures Contains(s, " ") <==> ' ' in s
  {
    if ' ' in s {
      var k :| 0 <= k < |s| && s[k] == ' ';
      assert s[k..k + 1] == " ";
      assert OccursAt(s, " ", k);
    }
    if Contains(s, " ") {
      var k := FindIndex(s, " ").value;
      assert s[k] == s[k..k + 1][0];
    }
  }

  /** `data.split('>>')` as the query branch uses it: the statement, and the stripped target if any. */
  function QueryOf(line: string): Command
  {
    var todo := Split(line, REDIRECT);
    if |todo| == 1 then Query(todo[0], None) else Query(todo[0], Some(Strip(todo[1])))
  }

  /** The branch chain, in the order the loop tries it. */
  function Classify(line: string): (c: Command)
    ensures c == Quit <==> IsQuitWord(line)
  {
    var low := Lower(line);
    if low in {"quit", "exit", "q"} then Quit
    else if low in {"h", "help"} then Help
    else if low == "clear" then Clear
    else if low == "version" then Version
    else if low == "tables" then Tables
    else if Take(low, 7) == "columns" then Columns(Argument(line))
    else if Take(low, 6) == "import" then Import(Argument(line))
    else QueryOf(line)
  }

  /**
   The order of the chain: the exact words first, each giving its own
   command, then a line whose lowercase form starts with `columns`, then
   one starting with `import`, and every other line is a query.
   */
  lemma ClassifyOrder(line: string)
    ensures var low := Lower(line);
            var exact := low in {"quit", "exit", "q", "h", "help", "clear", "version", "tables"};
            && (Classify(line) == Help <==> low in {"h", "help"})
            && (Classify(line) == Clear <==> low == "clear")
            && (Classify(line) == Version <==> low == "version")
            && (Classify(line) == Tables <==> low == "tables")
            && (Classify(line).Columns? <==> Take(low, 7) == "columns")
            && (Classify(line).Import? <==> Take(low, 6) == "import")
            && (Classify(line).Query? <==> !exact && Take(low, 7) != "columns" && Take(low, 6) != "import")
            && (Classify(line).Query? ==> Classify(line) == QueryOf(line))
            && (Classify(line).Columns? ==> Classify(line).table == Argument(line))
            && (Classify(line).Import? ==> Classify(line).file == Argument(line))
  {
    var low := Lower(line);
    if Take(low, 7) == "columns" {
      assert |low| >= 7 && low[..6] == "column";
    }
  }

  /**
   The query branch hands the engine exactly the text before the first `>>`;
   without a `>>` that is the whole line and the result is displayed.
   */
  lemma {:induction false} QuerySplit(line: string)
    ensures var q := QueryOf(line);
            && !Contains(q.sql, REDIRECT)
            && (q.target.None? <==> !Contains(line, REDIRECT))
            && (q.target.None? ==> q.sql == line)
            && (q.target.Some? ==> line == q.sql + REDIRECT + line[|q.sql| + 2..])
  {
    if Contains(line, REDIRECT) {
      QueryRedirected(line);
    } else {
      QueryDisplayed(line);
    }
  }

  lemma QueryDisplayed(line: string)
    requires !Contains(line, REDIRECT)
    ensures QueryOf(line) == Query(line, None)
  {
    SplitWithout(line, REDIRECT);
  }

  lemma QueryRedirected(line: string)
    requires Contains(line, REDIRECT)
    ensures var q := QueryOf(line);
            && q.target.Some? && !Contains(q.sql, REDIRECT)
            && line == q.sql + REDIRECT + line[|q.sql| + 2..]
  {
    SplitAtFirst(line, REDIRECT);
  }

  /**
   With a redirect the target is the second `>>`-separated piece, stripped;
   any later pieces are ignored. A last piece may end in `>`: in
   `select 1 >> out>` the target is `out>`.
   */
  lemma {:induction false} QueryTarget(sql: string, middle: string, rest: seq<string>)
    requires Unmarked(sql) && !Contains(middle, REDIRECT)
    requires rest != [] ==> Unmarked(middle)
    ensures QueryOf(Join([sql, middle] + rest, REDIRECT)) == Query(sql, Some(Strip(middle)))
  {
    var pieces := [sql, middle] + rest;
    var line := Join(pieces, REDIRECT);
    assert pieces[1..] == [middle] + rest;
    assert line == sql + REDIRECT + Join([middle] + rest, REDIRECT);
    FirstOccurrenceNoMark(sql, Join([middle] + rest, REDIRECT));
    var tail := Join([middle] + rest, REDIRECT);
    assert Split(line, REDIRECT) == [sql] + Split(tail, REDIRECT) by {
      assert line[..|sql|] == sql;
      assert line[|sql| + 2..] == tail;
    }
    if rest == [] {
      assert tail == middle;
      SplitWithout(middle, REDIRECT);
    } else {
      assert ([middle] + rest)[1..] == rest;
      assert tail == middle + REDIRECT + Join(rest, REDIRECT);
      FirstOccurrenceNoMark(middle, Join(rest, REDIRECT));
      assert tail[..|middle|] == middle;
    }
  }

  /** Holds no `>>` and does not end in `>`, so a `>>` written after it starts right there. */
  predicate Unmarked(x: string)
  {
    !Contains(x, REDIRECT) && (x == [] || x[|x| - 1] != '>')
  }

  /** The first `>>` of `x + ">>" + y` is the one after `x`. */
  lemma FirstOccurrenceNoMark(x: string, y: string)
    requires Unmarked(x)
    ensures FindIndex(x + REDIRECT + y, REDIRECT) == Some(|x|)
  {
    var s := x + REDIRECT + y;
    assert s[|x|..|x| + 2] == REDIRECT;
    assert OccursAt(s, REDIRECT, |x|);
    forall j | 0 <= j < |x| ensures !OccursAt(s, REDIRECT, j) {
      if j + 2 <= |x| {
        assert s[j..j + 2] == x[j..j + 2];
        assert !OccursAt(x, REDIRECT, j);
      } else {
        assert j == |x| - 1;
        assert s[j] == x[j] != '>';
        assert s[j..j + 2][0] == s[j];
      }
    }
  }
}
