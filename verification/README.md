# A Dafny model of the Steampipe MCP server's query tool

The repository exposes one tool, `run_steampipe_query`. The tool takes a SQL string and runs the Steampipe CLI as `steampipe query <sql> --output json`. It then answers with one string: the executor's JSON output re-serialised, an empty array, or a human-readable `Error: ...` text. This project models that tool's decision procedure as pure Dafny functions and proves properties about it. The procedure covers how the argument vector is built, the exit-code check, the empty-output case, the whole-document/line-by-line parse fallback, and how each exception becomes its own message.

Modules, one per concern:

- `Options` (`options.dfy`): the `Option` type.
- `Json` (`json.dfy`): JSON values, plus `JsonLib`, the pair of library calls the tool makes. `loads` answers `None` where `json.loads` raises `JSONDecodeError`. `dumps` is `json.dumps(_, indent=2)`. Both are function-valued parameters, so every property holds for any parser and any serialiser.
- `PyText` (`py_text.dfy`): Python's `str.strip()` and `str.splitlines()`, using CPython's exact whitespace and line-break character sets.
- `PyInt` (`py_int.dfy`): Python's `str(int)`, which writes the exit code into the failure message (negative for a process killed by a signal).
- `LineFallback` (`line_fallback.dfy`): the line-by-line fallback. It is written both as a function and as the loop the tool runs, and its result is characterised as the ordered selection of the lines that parse.
- `SteampipeServer` (`steampipe_server.dfy`): the command line, the process outcome (`Completed(code, stdout, stderr) | TimedOut | NotFound | OtherFailure(message)`), the verdict (`NoRows | Whole | Lines | Failed`), the failure messages, and the reply.

The process call itself is a parameter: `RunSteampipeQuery(lib, run, query)` replies to `run(Command(query))`.

Three details of the code that the model keeps:

- The whole-document parse is applied to the untrimmed standard output (steampipe_mcp_server.py:65), while the emptiness test and the line split use the stripped output (steampipe_mcp_server.py:58).
- The error-output clause is appended as `"\nError details: " + stderr`, without brackets (steampipe_mcp_server.py:49).
- The parse-failure text is `Failed to parse Steampipe JSON output.` (steampipe_mcp_server.py:81).

The failure descriptions themselves live in `SteampipeServer.Detail`, which has no contract of its own. Its texts are stated word for word by the exact-reply lemmas `TimeoutReply`, `NotFoundReply`, `OtherFailureReply`, `ExitFailureReply`, `ExitFailureDetailsReply` and the parse-failure clause of `Respond`.

## Model

| member | source | states |
|---|---|---|
| SteampipeServer.Command | steampipe_mcp_server.py:26 | the command has five arguments: `steampipe`, `query`, the query unmodified, `--output`, `json` |
| SteampipeServer.CommandRoundTrip | steampipe_mcp_server.py:26 | the query is recovered exactly from the command, and an argument vector carries query q exactly when it is the command for q |
| SteampipeServer.RunSteampipeQuery | steampipe_mcp_server.py:17-102 | the tool never raises: its reply is `[]`, a failure text beginning `Error: `, or a serialisation produced by the JSON library; it answers the outcome of running `Command(query)`: `Error: ` unless that run exited with code 0, `[]` for whitespace-only output, the serialised document when the output parses, and the time-out text when that run timed out |
| SteampipeServer.RunConsultsOnlyCommand | steampipe_mcp_server.py:26-37 | the reply depends on the process call only through the outcome of the command built from the query: process calls that agree on that command give the same reply |
| SteampipeServer.Decide | steampipe_mcp_server.py:46-102 | each exception gets its own failure (the unexpected one keeps its message); a non-zero exit is a failure carrying the code and the error output; only a run that exited with code 0 has its output examined |
| SteampipeServer.Normalize | steampipe_mcp_server.py:58-84 | no rows exactly when the output is whitespace only; the whole-document verdict exactly when the untrimmed output parses; the line verdict exactly when it does not but some line does, holding the fallback's values; a parse failure exactly when no line parses |
| SteampipeServer.OutputLines | steampipe_mcp_server.py:58-59 | the stripped output has no lines exactly when the output is whitespace only |
| SteampipeServer.ErrorMessage | steampipe_mcp_server.py:52 | every failure text begins with `Error: ` |
| SteampipeServer.ErrorMessageInjective | steampipe_mcp_server.py:46-102 | different failures give different texts; the exit code, the error output and the exception message can all be read back from the reply |
| SteampipeServer.Render | steampipe_mcp_server.py:52-84 | no rows is answered `[]`; a whole document and a list of line values are answered with their serialisation; a failure is answered `Error: ` followed by its description |
| SteampipeServer.Respond | steampipe_mcp_server.py:46-102 | outcomes other than a clean exit get an `Error: ` reply; whitespace-only output gets `[]`; a parsable whole output gets its serialisation; otherwise the serialised array of parsed lines, or the fixed parse-failure text when no line parses |
| SteampipeServer.TimeoutReply | steampipe_mcp_server.py:91-94 | a time-out is answered with exactly `Error: Steampipe query timed out after 60 seconds.` |
| SteampipeServer.NotFoundReply | steampipe_mcp_server.py:95-98 | a missing executable is answered with exactly `Error: Steampipe command not found. Make sure it's installed and in your system PATH.` |
| SteampipeServer.OtherFailureReply | steampipe_mcp_server.py:99-102 | any other exception is answered with exactly `Error: An unexpected error occurred while running Steampipe: ` followed by its message |
| SteampipeServer.ExitFailureReply | steampipe_mcp_server.py:46-52 | a non-zero exit with empty error output is answered with exactly `Error: Steampipe query failed with exit code <code>.` |
| SteampipeServer.ExitFailureDetailsReply | steampipe_mcp_server.py:46-52 | a non-zero exit with error output is answered with the same text followed by `\nError details: ` and the error output |
| SteampipeServer.ErrorReplyIffFailure | steampipe_mcp_server.py:46-102 | when the serialiser never writes `Error: `, a reply begins with `Error: ` exactly when the tool decided on a failure |
| SteampipeServer.ExitFailureIgnoresOutput | steampipe_mcp_server.py:46-52 | for a non-zero exit code the reply depends neither on the standard output nor on the JSON library: no parse is attempted |
| SteampipeServer.WholeDocumentSkipsLines | steampipe_mcp_server.py:64-68 | when the whole output parses, the reply does not depend on how single lines would parse |
| SteampipeServer.FallbackKeepsParsedLinesInOrder | steampipe_mcp_server.py:69-84 | when the whole parse fails and some line parses, the reply serialises the values of exactly the parsable lines, each once, in line order, with at most as many values as lines |
| SteampipeServer.EveryLineParsedReply | steampipe_mcp_server.py:72-84 | when the whole parse fails and every line parses, the reply serialises all the lines' values in order |
| LineFallback.ParseLines | steampipe_mcp_server.py:72-79 | the fallback keeps at most as many values as there are lines, and keeps none exactly when no line parses |
| LineFallback.ParseLinesSelects | steampipe_mcp_server.py:72-78 | the fallback's values are those of strictly increasing line positions that cover every parsable line |
| LineFallback.SelectionIsParseLines | steampipe_mcp_server.py:72-78 | any sequence that is such an ordered selection of the parsable lines is the fallback's result |
| LineFallback.AllLinesParse | steampipe_mcp_server.py:72-78 | when every line parses, the fallback returns every line's value, position by position |
| LineFallback.CollectParsed | steampipe_mcp_server.py:72-78 | the tool's append-or-skip loop computes the fallback's result |
| PyText.StripLeading | steampipe_mcp_server.py:58 | the left strip is a suffix; what it drops is whitespace; it does not begin with whitespace |
| PyText.StripTrailing | steampipe_mcp_server.py:58 | the right strip is a prefix; what it drops is whitespace; it does not end with whitespace |
| PyText.Strip | steampipe_mcp_server.py:58 | the stripped output is a contiguous piece of the output with only whitespace around it; it neither begins nor ends with whitespace; it is empty exactly when the output is whitespace only |
| PyText.SplitLines | steampipe_mcp_server.py:58 | no lines exactly for the empty text; no more lines than characters |
| PyText.SplitAtBreak | steampipe_mcp_server.py:58 | every line-break character (line feed, carriage return, vertical tab, form feed, `\x1c`-`\x1e`, `\x85`, U+2028, U+2029) ends a line, and the rest of the text is split on its own |
| PyText.SplitAtCrLf | steampipe_mcp_server.py:58 | a carriage return directly followed by a line feed ends one line, not two |
| PyText.SplitSingleLine | steampipe_mcp_server.py:58 | text with no line break is one line, with no empty line after it |
| PyText.SplitLinesBreakFree | steampipe_mcp_server.py:58 | no line returned by the split contains a line break |
| PyText.SplitTerminated | steampipe_mcp_server.py:58 | break-free lines written one per line feed split back into exactly those lines |
| PyText.JoinSplitLines | steampipe_mcp_server.py:58 | for text whose only break is the line feed, joining the lines with line feeds and restoring a final line feed gives the text back |
| PyInt.IntToString | steampipe_mcp_server.py:47 | the exit code is written as a minus sign exactly for negative codes, followed by decimal digits with no leading zero (zero itself is `0`) |
| PyInt.IntToStringCanonical | steampipe_mcp_server.py:47 | the written exit code is canonical decimal text |
| PyInt.IntToStringUnique | steampipe_mcp_server.py:47 | canonical decimal text that reads back as a code is exactly what is written for that code |
| PyInt.IntToStringRoundTrip | steampipe_mcp_server.py:47 | reading the written exit code back gives the code |
| PyInt.IntToStringInjective | steampipe_mcp_server.py:47 | different exit codes are written differently |

## Left out

- Logging configuration and every logger call: these are side effects with no bearing on the reply.
- FastMCP server creation, tool registration and the stdio transport: these are a foreign library and I/O.
- The `subprocess.run` call, output capture and the 60-second timeout enforcement: these are process I/O. The result of the call is the `Outcome` input, and the call is the `run` parameter of `RunSteampipeQuery`. Because the output is captured as text, Python turns `\r\n` and `\r` into `\n`, so a real run never hands the line split a carriage return. The `Outcome` input does not encode this and may carry any text.
- The internals of `json.loads` and `json.dumps`, including `indent=2` formatting and key order: these are library code and stay uninterpreted parameters.
- The outer `except json.JSONDecodeError` handler (steampipe_mcp_server.py:86-89): it is unreachable, because both `loads` calls already catch that error and `dumps` does not raise it.
- Exceptions other than `JSONDecodeError` raised inside `json.loads`, and any exception raised inside `json.dumps` (a recursion error on a deeply nested document, for one): the source sends these to the catch-all handler at steampipe_mcp_server.py:99-102 and answers `Error: An unexpected error occurred while running Steampipe: ...`. The model treats `loads` and `dumps` as total, so where they would raise it answers with the parse result or the serialisation instead.
- The Unicode database: the whitespace and line-break sets are written out as the code points CPython treats that way. They are not derived from the database.
