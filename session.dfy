/**
 The program's main block: the start-up decisions (database name, piped
 input, a statement given on the command line) and the interactive loop
 that classifies one stripped line at a time until a quit word. The
 database engine, the terminal and the file system are not modelled: the
 session yields the sequence of effects it asks of them, in order.
 */
module Session {
  import opened Wrappers
  import opened Text
  import opened Commands
  import Loader

  const VERSION := "0.5"

  /** The banner written for `h`/`help` (and once at start-up in interactive use). */
  const USAGE :=
    "\nEnter a query to execute query\n"
    + "['query' >> 'file']  write the query result file\n"
    + "[import 'file']      import new file\n"
    + "[columns 'table']    view columns in table\n"
    + "[tables]             view all tables\n"
    + "[help]               display help\n"
    + "[quit]               quit\n\n"

  const MEMORY := ":memory:"
  const DEFAULT_QUERY := "SELECT * FROM input"
  const TABLES_SQL := "SELECT name FROM sqlite_master WHERE type = 'table'"
  const NO_FILE_NAME := "No file name provided [import 'filename']\n"

  /** The parsed command line: database, CSV files, and the `-s/--sql` statement. */
  datatype Args = Args(database: string, files: seq<string>, sql: Option<string>)

  /** One thing the session asks of the engine, the terminal or the file system. */
  datatype Effect =
    | Connect(database: string)
      /** `addtable` on a CSV file named on the command line. */
    | Load(file: string)
      /** `addtable` on the piped standard input, as table `input`. */
    | LoadInput
    | Commit
      /** Execute the statement and write its result as CSV to standard output. */
    | Export(sql: string)
    | Out(text: string)
    | Err(text: string)
    | ClearScreen
      /** Execute the statement and display its result as a table. */
    | Show(sql: string)
      /** Load the file when it is readable, else report that it is not a valid file. */
    | ImportFile(file: string)
      /** Execute the statement and write its result as CSV into the target file. */
    | Redirect(sql: string, target: string)
      /** Pause, write the `>>> ` prompt and read the next line. */
    | Prompt
    | Close

  /** How the session ends: a quit word, an uncaught exception, or input that ran out. */
  datatype Outcome = Quitted | Crashed | EndOfInput

  /** The effects of one pass through the branch chain, and whether it raised. */
  datatype Step = Step(effects: seq<Effect>, crashed: bool)

  // ---------------------------------------------------------------------
  // Start-up
  // ---------------------------------------------------------------------

  /** A database argument of `-` means the in-memory database. */
  function Database(arg: string): (r: string)
    ensures r != "-"
    ensures arg == "-" ==> r == MEMORY
    ensures arg != "-" ==> r == arg
  {
    if arg == "-" then MEMORY else arg
  }

  /** Piped input without a statement gets the default query over the `input` table. */
  function StartSql(args: Args, stdinIsTerminal: bool): Option<string>
  {
    if !stdinIsTerminal && !Loader.Given(args.sql) then Some(DEFAULT_QUERY) else args.sql
  }

  /** Everything done before the loop: connect, load the files, commit, load piped input, run the statement. */
  function StartEffects(args: Args, stdinIsTerminal: bool): seq<Effect>
  {
    var sql := StartSql(args, stdinIsTerminal);
    [Connect(Database(args.database))]
    + seq(|args.files|, i requires 0 <= i < |args.files| => Load(args.files[i]))
    + [Commit]
    + (if stdinIsTerminal then [] else [LoadInput])
    + (if Loader.Given(sql) then [Export(sql.value)] else [])
  }

  /** The loop's first line: `quit` once a statement has run, `help` otherwise. */
  function FirstLine(args: Args, stdinIsTerminal: bool): string
  {
    if Loader.Given(StartSql(args, stdinIsTerminal)) then "quit" else "help"
  }

  // ---------------------------------------------------------------------
  // One pass of the loop body
  // ---------------------------------------------------------------------

  /** `' '.join([os.path.basename(sys.argv[0]), __version__]) + '\n'`. */
  function VersionLine(program: string): string
  {
    Loader.Basename(program) + " " + VERSION + "\n"
  }

  /** What one classified line does. */
  function Dispatch(cmd: Command, program: string): Step
  {
    match cmd
    case Quit => Step([], false)
    case Help => Step([Out(USAGE)], false)
    case Clear => Step([ClearScreen], false)
    case Version => Step([Out(VersionLine(program))], false)
    case Tables => Step([Show(TABLES_SQL)], false)
    case Columns(None) => Step([], true)
    case Columns(Some(table)) => Step([Show("PRAGMA table_info(" + table + ")")], false)
    case Import(None) => Step([Err(NO_FILE_NAME)], true)
    case Import(Some(file)) => Step([ImportFile(file)], false)
    case Query(sql, None) => Step([Show(sql)], false)
    case Query(sql, Some(target)) => Step([Redirect(sql, target)], false)
  }

  // ---------------------------------------------------------------------
  // The loop
  // ---------------------------------------------------------------------

  /** What the loop sees: its first line, then every input line stripped, each classified. */
  function Classified(first: string, lines: seq<string>): (cmds: seq<Command>)
    ensures |cmds| == |lines| + 1 && cmds[0] == Classify(first)
    decreases |lines|
  {
    [Classify(first)] + if lines == [] then [] else Classified(Strip(lines[0]), lines[1..])
  }

  /** The command at position k + 1 is the k-th input line, stripped and classified. */
  lemma {:induction false} ClassifiedAt(first: string, lines: seq<string>, k: nat)
    requires k < |lines|
    ensures Classified(first, lines)[k + 1] == Classify(Strip(lines[k]))
    decreases k
  {
    if k > 0 {
      ClassifiedAt(Strip(lines[0]), lines[1..], k - 1);
    }
  }

  /**
   The loop over classified lines: stop at a quit word (commit and close),
   else run the line; a line that raises ends the session, any other is
   followed by the prompt and the next line, until the lines run out.
   */
  function Trace(cmds: seq<Command>, program: string): (seq<Effect>, Outcome)
    requires |cmds| >= 1
    decreases |cmds|
  {
    if cmds[0] == Quit then ([Commit, Close], Quitted)
    else
      var step := Dispatch(cmds[0], program);
      if step.crashed then (step.effects, Crashed)
      else if |cmds| == 1 then (step.effects + [Prompt], EndOfInput)
      else
        var rest := Trace(cmds[1..], program);
        (step.effects + [Prompt] + rest.0, rest.1)
  }

  /** The whole session: start-up, then the loop from its first line over the input lines. */
  function Run(args: Args, stdinIsTerminal: bool, program: string, lines: seq<string>): (seq<Effect>, Outcome)
  {
    var loop := Trace(Classified(FirstLine(args, stdinIsTerminal), lines), program);
    (StartEffects(args, stdinIsTerminal) + loop.0, loop.1)
  }

  /** The main block: start-up, then the loop from its first line. */
  method RunSession(args: Args, stdinIsTerminal: bool, program: string, lines: seq<string>)
    returns (effects: seq<Effect>, outcome: Outcome)
    ensures effects == Run(args, stdinIsTerminal, program, lines).0
    ensures outcome == Run(args, stdinIsTerminal, program, lines).1
  {
    var start := StartEffects(args, stdinIsTerminal);
    var loop;
    loop, outcome := RunLoop(FirstLine(args, stdinIsTerminal), lines, program);
    effects := start + loop;
  }

  /**
   The loop as it runs, with the effects produced so far: the trace from
   line `i` on, after `done`.
   */
  function Resume(cmds: seq<Command>, i: nat, done: seq<Effect>, program: string): (seq<Effect>, Outcome)
    requires i < |cmds|
    decreases |cmds| - i
  {
    if cmds[i] == Quit then (done + [Commit, Close], Quitted)
    else
      var step := Dispatch(cmds[i], program);
      if step.crashed then (done + step.effects, Crashed)
      else if i + 1 == |cmds| then (done + step.effects + [Prompt], EndOfInput)
      else Resume(cmds, i + 1, done + step.effects + [Prompt], program)
  }

  /** Running on from line `i` after `done` yields `done` followed by the trace of the remaining lines. */
  lemma {:induction false} ResumeIsTrace(cmds: seq<Command>, i: nat, done: seq<Effect>, program: string)
    requires i < |cmds|
    ensures Resume(cmds, i, done, program) == (done + Trace(cmds[i..], program).0, Trace(cmds[i..], program).1)
    decreases |cmds| - i
  {
    var rest := cmds[i..];
    assert rest[0] == cmds[i];
    TraceHead(rest, program);
    var step := Dispatch(cmds[i], program);
    if cmds[i] != Quit && !step.crashed {
      if i + 1 == |cmds| {
        assert done + step.effects + [Prompt] == done + (step.effects + [Prompt]);
      } else {
        var tail := Trace(cmds[i + 1..], program);
        ResumeIsTrace(cmds, i + 1, done + step.effects + [Prompt], program);
        assert rest[1..] == cmds[i + 1..];
        assert done + step.effects + [Prompt] + tail.0 == done + (step.effects + [Prompt] + tail.0);
      }
    }
  }

  /**
   `while not data.lower() in ('quit', 'exit', 'q')`: run the line; unless
   it raised, prompt, read the next input line and strip it; stop at a quit
   word or when the input lines run out.
   */
  method RunLoop(first: string, lines: seq<string>, program: string)
    returns (effects: seq<Effect>, outcome: Outcome)
    ensures effects == Trace(Classified(first, lines), program).0
    ensures outcome == Trace(Classified(first, lines), program).1
  {
    ghost var cmds := Classified(first, lines);
    ResumeIsTrace(cmds, 0, [], program);
    assert cmds[0..] == cmds;
    effects := [];
    var i := 0;
    var data, cmd := ReadLine(first, lines, i);
    while !IsQuitWord(data)
      invariant 0 <= i <= |lines|
      invariant cmd == cmds[i] && (cmd == Quit <==> IsQuitWord(data))
      invariant Resume(cmds, i, effects, program) == Resume(cmds, 0, [], program)
      decreases |lines| - i
    {
      var step := Dispatch(cmd, program);
      if step.crashed {
        effects := effects + step.effects;
        outcome := Crashed;
        return;
      }
      if i == |lines| {
        effects := effects + step.effects + [Prompt];
        outcome := EndOfInput;
        return;
      }
      effects := effects + step.effects + [Prompt];
      i := i + 1;
      data, cmd := ReadLine(first, lines, i);
    }
    effects := effects + [Commit, Close];
    outcome := Quitted;
  }

  /**
   The loop's line number `i`: the first line, or input line `i - 1`
   stripped (`data = sys.stdin.readline().strip()`), and how it classifies.
   */
  method ReadLine(first: string, lines: seq<string>, i: nat) returns (data: string, cmd: Command)
    requires i <= |lines|
    ensures data == if i == 0 then first else Strip(lines[i - 1])
    ensures cmd == Classified(first, lines)[i]
    ensures cmd == Quit <==> IsQuitWord(data)
  {
    data := if i == 0 then first else Strip(lines[i - 1]);
    cmd := Classify(data);
    if i > 0 {
      ClassifiedAt(first, lines, i - 1);
    }
  }

  // ---------------------------------------------------------------------
  // Properties of the session
  // ---------------------------------------------------------------------

  /** The word the start-up puts in place of a first line once a statement has run is a quit word. */
  lemma QuitIsQuitWord(data: string)
    requires data == "quit"
    ensures IsQuitWord(data) && Classify(data) == Quit
  {
    assert Lower(data) == data;
  }

  /** The first line of an interactive session is not a quit word: it shows the usage text. */
  lemma HelpIsNotQuitWord(data: string)
    requires data == "help"
    ensures !IsQuitWord(data) && Classify(data) == Help
  {
    assert Lower(data) == data;
  }

  /** Start-up connects first, loads every file in order, then commits. */
  lemma StartOrder(args: Args, stdinIsTerminal: bool)
    ensures var start := StartEffects(args, stdinIsTerminal);
            && |start| >= 2 + |args.files|
            && start[0] == Connect(Database(args.database))
            && (forall k :: 0 <= k < |args.files| ==> start[1 + k] == Load(args.files[k]))
            && start[1 + |args.files|] == Commit
            && (LoadInput in start <==> !stdinIsTerminal)
            && (forall e :: e in start && e.Export? ==> Some(e.sql) == StartSql(args, stdinIsTerminal))
  {
    var start := StartEffects(args, stdinIsTerminal);
    var n := 1 + |args.files|;
    if !stdinIsTerminal {
      assert start[n + 1] == LoadInput;
    }
    forall e | e in start ensures e != LoadInput || !stdinIsTerminal
      ensures e.Export? ==> Some(e.sql) == StartSql(args, stdinIsTerminal)
    {
      var k :| 0 <= k < |start| && start[k] == e;
      if 1 <= k < n {
        assert start[k] == Load(args.files[k - 1]);
      }
    }
  }

  /**
   With a statement (given with `-s`, or the default one for piped input)
   the session runs it once, writes its result to standard output, and
   quits at once: the loop body never runs, nothing is prompted for.
   */
  lemma StatementSkipsLoop(args: Args, stdinIsTerminal: bool, program: string, lines: seq<string>)
    requires Loader.Given(StartSql(args, stdinIsTerminal))
    ensures Run(args, stdinIsTerminal, program, lines)
         == (StartEffects(args, stdinIsTerminal) + [Commit, Close], Quitted)
    ensures Export(StartSql(args, stdinIsTerminal).value) in Run(args, stdinIsTerminal, program, lines).0
  {
    QuitIsQuitWord(FirstLine(args, stdinIsTerminal));
    var start := StartEffects(args, stdinIsTerminal);
    assert start[|start| - 1] == Export(StartSql(args, stdinIsTerminal).value);
  }

  /**
   Piped input is loaded as table `input`; without a statement the default
   query over it is the one exported; either way the session then quits.
   */
  lemma PipedInput(args: Args, program: string, lines: seq<string>)
    ensures LoadInput in StartEffects(args, false)
    ensures !Loader.Given(args.sql) ==> StartSql(args, false) == Some(DEFAULT_QUERY)
    ensures Loader.Given(args.sql) ==> StartSql(args, false) == args.sql
    ensures Run(args, false, program, lines).1 == Quitted
  {
    StartOrder(args, false);
    StatementSkipsLoop(args, false, program, lines);
  }

  /**
   An interactive session without a statement exports nothing and loads no
   piped input; right after start-up it shows the usage text and prompts.
   */
  lemma InteractiveStartsWithUsage(args: Args, program: string, lines: seq<string>)
    requires !Loader.Given(args.sql)
    ensures var start := StartEffects(args, true);
            var run := Run(args, true, program, lines).0;
            && |run| >= |start| + 2
            && run[|start|] == Out(USAGE) && run[|start| + 1] == Prompt
            && (forall e :: e in start ==> !e.Export? && e != LoadInput)
  {
    var start := StartEffects(args, true);
    HelpIsNotQuitWord(FirstLine(args, true));
    StartOrder(args, true);
    var cmds := Classified(FirstLine(args, true), lines);
    var run := Run(args, true, program, lines).0;
    var loop := Trace(cmds, program).0;
    assert cmds[0] == Help;
    TraceHead(cmds, program);
    assert |loop| >= 2 && loop[0] == Out(USAGE) && loop[1] == Prompt;
    assert run == start + loop;
  }

  /** No command touches the connection's end: only the quit path commits and closes. */
  lemma DispatchNeverCloses(cmd: Command, program: string)
    ensures Close !in Dispatch(cmd, program).effects
    ensures Commit !in Dispatch(cmd, program).effects
  {
  }

  /**
   How the loop ends: quitting commits and then closes the database, last
   of all; a run that raises or runs out of input never closes it; and a
   run that runs out of input met no quit word.
   */
  lemma TraceEnds(cmds: seq<Command>, program: string)
    requires |cmds| >= 1
    ensures var effects := Trace(cmds, program).0;
            var outcome := Trace(cmds, program).1;
            && (outcome == Quitted ==>
                  |effects| >= 2 && effects[|effects| - 2] == Commit && effects[|effects| - 1] == Close)
            && (outcome != Quitted ==> Close !in effects)
            && (outcome == EndOfInput ==> Quit !in cmds)
  {
    var outcome := Trace(cmds, program).1;
    if outcome == Quitted {
      TraceQuits(cmds, program);
    } else {
      TraceNeverCloses(cmds, program);
    }
    if outcome == EndOfInput {
      TraceRunsOut(cmds, program);
    }
  }

  /** One step of the trace: how it starts, by its first line. */
  lemma TraceHead(cmds: seq<Command>, program: string)
    requires |cmds| >= 1
    ensures cmds[0] == Quit ==> Trace(cmds, program) == ([Commit, Close], Quitted)
    ensures cmds[0] != Quit && Dispatch(cmds[0], program).crashed
            ==> Trace(cmds, program) == (Dispatch(cmds[0], program).effects, Crashed)
    ensures cmds[0] != Quit && !Dispatch(cmds[0], program).crashed && |cmds| == 1
            ==> Trace(cmds, program) == (Dispatch(cmds[0], program).effects + [Prompt], EndOfInput)
    ensures cmds[0] != Quit && !Dispatch(cmds[0], program).crashed && |cmds| >= 2
            ==> Trace(cmds, program)
                == (Dispatch(cmds[0], program).effects + [Prompt] + Trace(cmds[1..], program).0,
                    Trace(cmds[1..], program).1)
  {
  }

  lemma {:induction false} TraceQuits(cmds: seq<Command>, program: string)
    requires |cmds| >= 1 && Trace(cmds, program).1 == Quitted
    ensures var effects := Trace(cmds, program).0;
            |effects| >= 2 && effects[|effects| - 2] == Commit && effects[|effects| - 1] == Close
    decreases |cmds|
  {
    if cmds[0] != Quit {
      TraceHead(cmds, program);
      TraceQuits(cmds[1..], program);
      var rest := Trace(cmds[1..], program).0;
      var all := Dispatch(cmds[0], program).effects + [Prompt] + rest;
      assert all[|all| - 1] == rest[|rest| - 1];
      assert all[|all| - 2] == rest[|rest| - 2];
    }
  }

  lemma {:induction false} TraceNeverCloses(cmds: seq<Command>, program: string)
    requires |cmds| >= 1 && Trace(cmds, program).1 != Quitted
    ensures Close !in Trace(cmds, program).0
    decreases |cmds|
  {
    DispatchNeverCloses(cmds[0], program);
    if |cmds| >= 2 && !Dispatch(cmds[0], program).crashed {
      TraceHead(cmds, program);
      TraceNeverCloses(cmds[1..], program);
    }
  }

  lemma {:induction false} TraceRunsOut(cmds: seq<Command>, program: string)
    requires |cmds| >= 1 && Trace(cmds, program).1 == EndOfInput
    ensures Quit !in cmds
    decreases |cmds|
  {
    if |cmds| >= 2 {
      TraceHead(cmds, program);
      TraceRunsOut(cmds[1..], program);
      assert cmds == [cmds[0]] + cmds[1..];
    }
  }

  /** A session that runs out of input met no quit word, in its first line or any stripped input line. */
  lemma EndOfInputMeansNoQuitWord(first: string, lines: seq<string>, program: string)
    ensures Trace(Classified(first, lines), program).1 == EndOfInput
            ==> !IsQuitWord(first) && forall k :: 0 <= k < |lines| ==> !IsQuitWord(Strip(lines[k]))
  {
    var cmds := Classified(first, lines);
    if Trace(cmds, program).1 == EndOfInput {
      TraceEnds(cmds, program);
      forall k | 0 <= k < |lines| ensures !IsQuitWord(Strip(lines[k])) {
        ClassifiedAt(first, lines, k);
      }
    }
  }

  /**
   The prompt count: a session that runs out of input prompted once per
   line it was given and once more for the line it did not get.
   */
  lemma {:induction false} PromptsPerLine(cmds: seq<Command>, program: string)
    requires |cmds| >= 1
    requires Trace(cmds, program).1 == EndOfInput
    ensures Count(Trace(cmds, program).0, Prompt) == |cmds|
    decreases |cmds|
  {
    var step := Dispatch(cmds[0], program);
    DispatchNoPrompt(cmds[0], program);
    if |cmds| == 1 {
      CountAppend(step.effects, [Prompt], Prompt);
    } else {
      PromptsPerLine(cmds[1..], program);
      var rest := Trace(cmds[1..], program).0;
      CountAppend(step.effects + [Prompt], rest, Prompt);
      CountAppend(step.effects, [Prompt], Prompt);
    }
  }

  lemma DispatchNoPrompt(cmd: Command, program: string)
    ensures Count(Dispatch(cmd, program).effects, Prompt) == 0
  {
  }

  /**
   A line that reaches the query branch runs one statement and does not
   raise: a line without `>>` is displayed as it stands, and a line with
   `>>` has its `>>`-free text before the first `>>` redirected.
   */
  lemma QueryLineDispatch(line: string, program: string)
    requires Classify(line).Query?
    ensures var step := Dispatch(Classify(line), program);
            && !step.crashed && |step.effects| == 1
            && (!Contains(line, REDIRECT) ==> step.effects == [Show(line)])
            && (Contains(line, REDIRECT) ==>
                  var e := step.effects[0];
                  && e.Redirect? && !Contains(e.sql, REDIRECT)
                  && line == e.sql + REDIRECT + line[|e.sql| + 2..])
  {
    assert Classify(line) == QueryOf(line);
    if Contains(line, REDIRECT) {
      QueryRedirected(line);
    } else {
      QueryDisplayed(line);
    }
  }

  /**
   An empty input line (what `readline` gives once per end-of-input on a
   terminal) is an empty query that is displayed, and the loop goes on.
   */
  lemma EmptyLineIsEmptyQuery(program: string)
    ensures Classify("") == Query("", None)
    ensures Dispatch(Classify(""), program) == Step([Show("")], false)
  {
    assert Lower("") == "";
    QueryDisplayed("");
  }

  /** How many times `e` occurs in `effects`. */
  function Count(effects: seq<Effect>, e: Effect): nat
  {
    if effects == [] then 0
    else (if effects[0] == e then 1 else 0) + Count(effects[1..], e)
  }

  lemma {:induction false} CountAppend(a: seq<Effect>, b: seq<Effect>, e: Effect)
    ensures Count(a + b, e) == Count(a, e) + Count(b, e)
    decreases |a|
  {
    if a == [] {
      assert a + b == b;
    } else {
      assert (a + b)[1..] == a[1..] + b;
      CountAppend(a[1..], b, e);
    }
  }

  /**
   Interactive use whose first line is a quit word (in any case, with any
   surrounding whitespace): usage, one prompt, then commit and close.
   */
  lemma QuitFirst(args: Args, program: string, lines: seq<string>)
    requires !Loader.Given(args.sql) && lines != [] && IsQuitWord(Strip(lines[0]))
    ensures Run(args, true, program, lines)
         == (StartEffects(args, true) + [Out(USAGE), Prompt, Commit, Close], Quitted)
  {
    HelpIsNotQuitWord(FirstLine(args, true));
    var cmds := Classified(FirstLine(args, true), lines);
    assert cmds[0] == Help;
    assert cmds[1..] == Classified(Strip(lines[0]), lines[1..]);
    assert cmds[1..][0] == Quit;
    assert Trace(cmds[1..], program) == ([Commit, Close], Quitted);
    assert Trace(cmds, program) == ([Out(USAGE)] + [Prompt] + [Commit, Close], Quitted);
    assert [Out(USAGE)] + [Prompt] + [Commit, Close] == [Out(USAGE), Prompt, Commit, Close];
  }

  /**
   A `columns` line without a space raises (`data[1]` of a one-piece list)
   before anything is executed, and the session ends there.
   */
  lemma ColumnsWithoutTable(data: string, program: string)
    requires Take(Lower(data), 7) == "columns" && ' ' !in data
    ensures Classify(data) == Columns(None)
    ensures Dispatch(Classify(data), program) == Step([], true)
  {
    ClassifyOrder(data);
  }

  /**
   An `import` line without a space reports that no file name was given and
   then raises (`os.access(None, ...)`), ending the session.
   */
  lemma ImportWithoutFile(data: string, program: string)
    requires Take(Lower(data), 6) == "import" && ' ' !in data
    ensures Classify(data) == Import(None)
    ensures Dispatch(Classify(data), program) == Step([Err(NO_FILE_NAME)], true)
  {
    ClassifyOrder(data);
  }
}
