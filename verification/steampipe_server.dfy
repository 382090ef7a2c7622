/** The `run_steampipe_query` tool: build the executor's command line, and turn the
    outcome of running it into the one reply string the tool returns. */
module SteampipeServer {
  import opened Options
  import opened Json
  import opened PyText
  import opened PyInt
  import opened LineFallback

  /** The argument vector the tool runs: the query is passed as one argument,
      unmodified, and the executor is asked for JSON output. */
  function Command(query: string): (argv: seq<string>)
    ensures |argv| == 5
    ensures argv[2] == query
    ensures argv[..2] == ["steampipe", "query"] && argv[3..] == ["--output", "json"]
  {
    ["steampipe", "query", query, "--output", "json"]
  }

  /** The query an argument vector of the tool's shape carries. */
  function QueryOf(argv: seq<string>): Option<string> {
    if |argv| == 5 && argv[0] == "steampipe" && argv[1] == "query"
       && argv[3] == "--output" && argv[4] == "json"
    then Some(argv[2])
    else None
  }

  /** The query is the only part of the command that varies, and it is recovered
      from the command exactly. */
  lemma CommandRoundTrip(query: string, argv: seq<string>)
    ensures QueryOf(Command(query)) == Some(query)
    ensures QueryOf(argv) == Some(query) <==> argv == Command(query)
  {
  }

  /** What running the command produced: the process finished (with any exit code),
      or one of the three exceptions the tool catches was raised. */
  datatype Outcome =
    | Completed(code: int, stdout: string, stderr: string)
    | TimedOut
    | NotFound
    | OtherFailure(message: string)

  /** The failures the tool reports to its caller. */
  datatype Failure =
    | ExitFailure(code: int, stderr: string)
    | ParseFailure
    | Timeout
    | Missing
    | Fault(message: string)

  /** What the tool decided to answer, before serialisation. */
  datatype Verdict =
    | NoRows
    | Whole(value: Json)
    | Lines(values: seq<Json>)
    | Failed(failure: Failure)

  /** What every failure reply begins with. */
  const ErrorPrefix: string := "Error: "

  /** The description of a failure that follows the prefix. The exit code is written
      as Python writes an integer, and the executor's error output is appended only
      when there is some. */
  function Detail(f: Failure): string {
    match f
    case ExitFailure(code, stderr) =>
      "Steampipe query failed with exit code " + IntToString(code) + "."
      + (if stderr != [] then "\nError details: " + stderr else [])
    case ParseFailure => "Failed to parse Steampipe JSON output."
    case Timeout => "Steampipe query timed out after 60 seconds."
    case Missing => "Steampipe command not found. Make sure it's installed and in your system PATH."
    case Fault(message) => "An unexpected error occurred while running Steampipe: " + message
  }

  /** The reply text for a failure. */
  function ErrorMessage(f: Failure): (msg: string)
    ensures StartsWithError(msg)
  {
    ErrorPrefix + Detail(f)
  }

  predicate StartsWithError(reply: string) {
    |reply| >= |ErrorPrefix| && reply[..|ErrorPrefix|] == ErrorPrefix
  }

  lemma JoinedAt(u: string, t: string, i: int)
    ensures (u + "." + t)[|u|] == '.'
    ensures 0 <= i < |u| ==> (u + "." + t)[i] == u[i]
  {
  }

  /** Text that the exit code is written into stops at the first full stop. */
  lemma FullStopDelimits(u1: string, t1: string, u2: string, t2: string)
    requires forall k :: 0 <= k < |u1| ==> u1[k] != '.'
    requires forall k :: 0 <= k < |u2| ==> u2[k] != '.'
    requires u1 + "." + t1 == u2 + "." + t2
    ensures u1 == u2 && t1 == t2
  {
    var s1 := u1 + "." + t1;
    var s2 := u2 + "." + t2;
    JoinedAt(u1, t1, |u2|);
    JoinedAt(u2, t2, |u1|);
    assert |u1| == |u2|;
    assert u1 == s1[..|u1|] && u2 == s2[..|u2|];
    assert t1 == s1[|u1| + 1..] && t2 == s2[|u2| + 1..];
  }

  /** The character that tells the failure descriptions apart. Up to index 37 the
      descriptions read "Steampipe query failed with exit code" (then ' '),
      "Failed to parse Steampipe JSON output" (then '.'),
      "Steampipe query timed out after 60 se" (then 'c'),
      "Steampipe command not found. Make sur" (then 'e') and
      "An unexpected error occurred while ru" (then 'n'). */
  lemma DetailMark(f: Failure)
    ensures |Detail(f)| >= 38
    ensures Detail(f)[37] == match f
                             case ExitFailure(_, _) => ' '
                             case ParseFailure => '.'
                             case Timeout => 'c'
                             case Missing => 'e'
                             case Fault(_) => 'n'
  {
  }

  /** Different failures are reported with different texts: the reply alone tells
      which failure occurred, and for a non-zero exit the code and the error output,
      for an unexpected exception its message. */
  lemma ErrorMessageInjective(f1: Failure, f2: Failure)
    ensures ErrorMessage(f1) == ErrorMessage(f2) ==> f1 == f2
  {
    if ErrorMessage(f1) == ErrorMessage(f2) {
      PrefixCancels(ErrorPrefix, Detail(f1), Detail(f2));
      DetailMark(f1);
      DetailMark(f2);
      if f1.ExitFailure? && f2.ExitFailure? {
        ExitDetailInjective(f1.code, f1.stderr, f2.code, f2.stderr);
      } else if f1.Fault? && f2.Fault? {
        PrefixCancels("An unexpected error occurred while running Steampipe: ", f1.message, f2.message);
      }
    }
  }

  lemma PrefixCancels(p: string, a: string, b: string)
    ensures p + a == p + b ==> a == b
  {
    if p + a == p + b {
      assert a == (p + a)[|p|..];
      assert b == (p + b)[|p|..];
    }
  }

  /** The exit-failure description determines the exit code and the error output. */
  lemma ExitDetailInjective(code1: int, stderr1: string, code2: int, stderr2: string)
    requires Detail(ExitFailure(code1, stderr1)) == Detail(ExitFailure(code2, stderr2))
    ensures code1 == code2 && stderr1 == stderr2
  {
    var lead := "Steampipe query failed with exit code ";
    var u1, u2 := IntToString(code1), IntToString(code2);
    var t1 := if stderr1 != [] then "\nError details: " + stderr1 else [];
    var t2 := if stderr2 != [] then "\nError details: " + stderr2 else [];
    AppendAssoc3(lead, u1, t1);
    AppendAssoc3(lead, u2, t2);
    PrefixCancels(lead, u1 + "." + t1, u2 + "." + t2);
    FullStopDelimits(u1, t1, u2, t2);
    IntToStringInjective(code1, code2);
    if stderr1 != [] && stderr2 != [] {
      PrefixCancels("\nError details: ", stderr1, stderr2);
    }
  }

  lemma AppendAssoc3(lead: string, u: string, t: string)
    ensures lead + u + "." + t == lead + (u + "." + t)
  {
  }

  /** The lines the fallback works on: those of the output with surrounding
      whitespace removed. */
  function OutputLines(stdout: string): (lines: seq<string>)
    ensures lines == [] <==> AllSpace(stdout)
  {
    SplitLines(Strip(stdout))
  }

  /** The verdict on the output of a run that exited with code 0, in the order the
      tool tries: output that is whitespace only means no rows; otherwise the whole
      output, as it came, is parsed as one JSON document; failing that, the lines of
      the output that parse on their own are kept. */
  function Normalize(loads: string -> Option<Json>, stdout: string): (v: Verdict)
    ensures v == NoRows <==> AllSpace(stdout)
    ensures v.Whole? <==> !AllSpace(stdout) && loads(stdout).Some?
    ensures v.Whole? ==> loads(stdout) == Some(v.value)
    ensures v.Lines? <==>
              && !AllSpace(stdout) && loads(stdout).None?
              && exists i :: 0 <= i < |OutputLines(stdout)| && loads(OutputLines(stdout)[i]).Some?
    ensures v.Lines? ==> v.values == ParseLines(loads, OutputLines(stdout))
    ensures v.Failed? <==>
              && !AllSpace(stdout) && loads(stdout).None?
              && forall i :: 0 <= i < |OutputLines(stdout)| ==> loads(OutputLines(stdout)[i]).None?
    ensures v.Failed? ==> v.failure == ParseFailure
  {
    var lines := OutputLines(stdout);
    if lines == [] then NoRows
    else
      match loads(stdout)
      case Some(value) => Whole(value)
      case None =>
        var parsed := ParseLines(loads, lines);
        if parsed == [] then Failed(ParseFailure) else Lines(parsed)
  }

  /** The tool's decision on the outcome of a run: each exception becomes its own
      failure, a non-zero exit code a failure that carries the code and the error
      output, and only the output of a run that exited with code 0 is examined. */
  function Decide(loads: string -> Option<Json>, o: Outcome): (v: Verdict)
    ensures o.TimedOut? <==> v == Failed(Timeout)
    ensures o.NotFound? <==> v == Failed(Missing)
    ensures o.OtherFailure? <==> v.Failed? && v.failure.Fault?
    ensures o.OtherFailure? ==> v == Failed(Fault(o.message))
    ensures (o.Completed? && o.code != 0) <==> v.Failed? && v.failure.ExitFailure?
    ensures o.Completed? && o.code != 0 ==> v == Failed(ExitFailure(o.code, o.stderr))
    ensures o.Completed? && o.code == 0 ==> v == Normalize(loads, o.stdout)
  {
    match o
    case TimedOut => Failed(Timeout)
    case NotFound => Failed(Missing)
    case OtherFailure(message) => Failed(Fault(message))
    case Completed(code, stdout, stderr) =>
      if code != 0 then Failed(ExitFailure(code, stderr)) else Normalize(loads, stdout)
  }

  /** The reply for a verdict: an empty JSON array, the serialised document, the
      serialised list of line values, or the failure's message. */
  function Render(dumps: Json -> string, v: Verdict): (r: string)
    ensures v.NoRows? ==> r == "[]"
    ensures v.Whole? ==> r == dumps(v.value)
    ensures v.Lines? ==> r == dumps(Array(v.values))
    ensures v.Failed? ==> StartsWithError(r) && r[|ErrorPrefix|..] == Detail(v.failure)
  {
    match v
    case NoRows => "[]"
    case Whole(value) => dumps(value)
    case Lines(values) => dumps(Array(values))
    case Failed(f) => ErrorMessage(f)
  }

  /** The tool's reply to the outcome of running the command. A run that exited
      with code 0 is answered with an empty array when its output is whitespace
      only, with the serialised document when the whole output parses, and
      otherwise with the serialised list of the lines that parse, or with a
      failure message when none does. Every other outcome is answered with a
      failure message. */
  function Respond(lib: JsonLib, o: Outcome): (reply: string)
    ensures !(o.Completed? && o.code == 0) ==> StartsWithError(reply)
    ensures o.Completed? && o.code == 0 && AllSpace(o.stdout) ==> reply == "[]"
    ensures o.Completed? && o.code == 0 && !AllSpace(o.stdout) && lib.loads(o.stdout).Some? ==>
              reply == lib.dumps(lib.loads(o.stdout).value)
    ensures o.Completed? && o.code == 0 && !AllSpace(o.stdout) && lib.loads(o.stdout).None? ==>
              var parsed := ParseLines(lib.loads, OutputLines(o.stdout));
              reply == (if parsed == [] then ErrorPrefix + "Failed to parse Steampipe JSON output."
                        else lib.dumps(Array(parsed)))
  {
    Render(lib.dumps, Decide(lib.loads, o))
  }

  /** The exact reply when the run timed out. */
  lemma TimeoutReply(lib: JsonLib)
    ensures Respond(lib, TimedOut) == ErrorPrefix + "Steampipe query timed out after 60 seconds."
  {
    assert Respond(lib, TimedOut) == ErrorMessage(Timeout);
  }

  /** The exact reply when the executable could not be found. */
  lemma NotFoundReply(lib: JsonLib)
    ensures Respond(lib, NotFound)
            == ErrorPrefix + "Steampipe command not found. Make sure it's installed and in your system PATH."
  {
    assert Respond(lib, NotFound) == ErrorMessage(Missing);
  }

  /** The exact reply to any other exception: a fixed text followed by the
      exception's message. */
  lemma OtherFailureReply(lib: JsonLib, message: string)
    ensures Respond(lib, OtherFailure(message))
            == ErrorPrefix + "An unexpected error occurred while running Steampipe: " + message
  {
    assert Respond(lib, OtherFailure(message)) == ErrorPrefix + Detail(Fault(message));
  }

  /** The exact reply to a non-zero exit code with no error output: the code as
      Python writes it, and nothing after the full stop. */
  lemma ExitFailureReply(lib: JsonLib, code: int, stdout: string)
    requires code != 0
    ensures Respond(lib, Completed(code, stdout, []))
            == ErrorPrefix + "Steampipe query failed with exit code " + IntToString(code) + "."
  {
    var lead := "Steampipe query failed with exit code " + IntToString(code) + ".";
    assert Detail(ExitFailure(code, [])) == lead + [];
    assert lead + [] == lead;
  }

  /** The exact reply to a non-zero exit code with error output: the code as Python
      writes it, then `\nError details: ` and the error output. */
  lemma ExitFailureDetailsReply(lib: JsonLib, code: int, stdout: string, stderr: string)
    requires code != 0 && stderr != []
    ensures Respond(lib, Completed(code, stdout, stderr))
            == ErrorPrefix + "Steampipe query failed with exit code " + IntToString(code) + "."
               + "\nError details: " + stderr
  {
    var lead := "Steampipe query failed with exit code " + IntToString(code) + ".";
    assert Detail(ExitFailure(code, stderr)) == lead + ("\nError details: " + stderr);
  }

  /** The tool: run the command built from the query through `run` (the process
      call) and reply to what it produced. */
  function RunSteampipeQuery(lib: JsonLib, run: seq<string> -> Outcome, query: string): (reply: string)
    ensures reply == "[]" || StartsWithError(reply) || exists j :: reply == lib.dumps(j)
    ensures var o := run(Command(query));
            !(o.Completed? && o.code == 0) ==> StartsWithError(reply)
    ensures var o := run(Command(query));
            o.Completed? && o.code == 0 && AllSpace(o.stdout) ==> reply == "[]"
    ensures var o := run(Command(query));
            o.Completed? && o.code == 0 && !AllSpace(o.stdout) && lib.loads(o.stdout).Some? ==>
              reply == lib.dumps(lib.loads(o.stdout).value)
    ensures run(Command(query)) == TimedOut ==>
              reply == ErrorPrefix + "Steampipe query timed out after 60 seconds."
  {
    TimeoutReply(lib);
    Respond(lib, run(Command(query)))
  }

  /** The tool consults the process call only on the command built from the query:
      two process calls that agree on that command give the same reply. */
  lemma RunConsultsOnlyCommand(lib: JsonLib, run1: seq<string> -> Outcome, run2: seq<string> -> Outcome,
                               query: string)
    requires run1(Command(query)) == run2(Command(query))
    ensures RunSteampipeQuery(lib, run1, query) == RunSteampipeQuery(lib, run2, query)
  {
  }

  /** A serialiser that never writes the failure prefix (Python's `json.dumps`
      begins its output with a bracket, a brace, a quote, a digit, a minus sign or
      the first letter of null, true, false, NaN or Infinity). */
  ghost predicate DumpsNeverError(dumps: Json -> string) {
    forall j :: !StartsWithError(dumps(j))
  }

  /** With such a serialiser a caller can tell failures from results by the prefix
      alone: a reply begins with it exactly when the tool decided on a failure. */
  lemma ErrorReplyIffFailure(lib: JsonLib, o: Outcome)
    requires DumpsNeverError(lib.dumps)
    ensures StartsWithError(Respond(lib, o)) <==> Decide(lib.loads, o).Failed?
  {
    var v := Decide(lib.loads, o);
    match v
    case NoRows =>
      assert Respond(lib, o) == "[]";
    case Whole(value) =>
      assert Respond(lib, o) == lib.dumps(value);
    case Lines(values) =>
      assert Respond(lib, o) == lib.dumps(Array(values));
    case Failed(f) =>
      assert Respond(lib, o) == ErrorMessage(f);
  }

  /** A non-zero exit code is answered from the code and the error output alone:
      neither the standard output nor the JSON library plays any part. */
  lemma ExitFailureIgnoresOutput(lib1: JsonLib, lib2: JsonLib, code: int,
                                 stdout1: string, stdout2: string, stderr: string)
    requires code != 0
    ensures Respond(lib1, Completed(code, stdout1, stderr)) == Respond(lib2, Completed(code, stdout2, stderr))
  {
  }

  /** When the whole output parses, the reply is its serialisation whatever the
      parser would make of the output's single lines: the line fallback is not
      consulted. */
  lemma WholeDocumentSkipsLines(lib1: JsonLib, lib2: JsonLib, stdout: string, stderr: string)
    requires lib1.loads(stdout).Some? && lib2.loads(stdout) == lib1.loads(stdout)
    requires lib1.dumps(lib1.loads(stdout).value) == lib2.dumps(lib1.loads(stdout).value)
    ensures Respond(lib1, Completed(0, stdout, stderr)) == Respond(lib2, Completed(0, stdout, stderr))
  {
  }

  /** When the whole output does not parse and some line (line `i`) does, the
      reply is the serialised array of the values of exactly the lines that parse,
      each once, in the order of the lines. */
  lemma FallbackKeepsParsedLinesInOrder(lib: JsonLib, stdout: string, stderr: string, i: nat)
    requires !AllSpace(stdout) && lib.loads(stdout).None?
    requires i < |OutputLines(stdout)| && lib.loads(OutputLines(stdout)[i]).Some?
    ensures var lines := OutputLines(stdout);
            var parsed := ParseLines(lib.loads, lines);
            && Respond(lib, Completed(0, stdout, stderr)) == lib.dumps(Array(parsed))
            && 0 < |parsed| <= |lines|
            && IsParsedSelection(lib.loads, lines, parsed, ParsedIndices(lib.loads, lines))
  {
    ParseLinesSelects(lib.loads, OutputLines(stdout));
  }

  /** When the whole output does not parse but every line does, the reply is the
      serialised array of all the lines' values, in the order of the lines. */
  lemma EveryLineParsedReply(lib: JsonLib, stdout: string, stderr: string)
    requires !AllSpace(stdout) && lib.loads(stdout).None?
    requires forall i :: 0 <= i < |OutputLines(stdout)| ==> lib.loads(OutputLines(stdout)[i]).Some?
    ensures var lines := OutputLines(stdout);
            var parsed := ParseLines(lib.loads, lines);
            && Respond(lib, Completed(0, stdout, stderr)) == lib.dumps(Array(parsed))
            && |parsed| == |lines|
            && forall i :: 0 <= i < |lines| ==> lib.loads(lines[i]) == Some(parsed[i])
  {
    var lines := OutputLines(stdout);
    AllLinesParse(lib.loads, lines);
    assert lib.loads(lines[0]).Some?;
  }
}
