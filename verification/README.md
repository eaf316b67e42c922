# flow and stdout-capture: a Dafny model of their decision and string logic

This project models the pure logic inside two small command-line tools:

- `flow validate [PATH]` checks a project directory against the Flow convention:
  a `.gitignore` must exist at its root and contain a line that, trimmed, is `# core`.
  Issues are collected and reported together, and success means there are none.
- `flow focus-cursor-window --state-file FILE` reads a window title from a state
  file. The trimmed contents are the title; if they are blank, the trimmed file
  name is used. It then asks `osascript` to raise the Cursor window with that
  title. The title is embedded in the script as an escaped AppleScript string
  literal. The tool classifies the sentinel the script answers with (`FOCUSED`,
  `NOT_RUNNING`, `NOT_FOUND`, empty, or anything else). After `FOCUSED` it checks
  the front window's title and chooses the line to print.
- `stdout-capture` builds a command string from its argument vector. The first
  `-c`, if present, splits the vector. Otherwise the arguments after the
  program name are joined with spaces.

Everything around this logic becomes an input:

- the file system, as `Validate.PathState` and `Option<string>` file contents;
- the `osascript` process, as a function from `Focus.Script` to
  `Osascript.ProcessOutput` (spawn failure or exit status, stdout and stderr).

Modules follow the program's structure:

- `Wrappers`: `Option` and `Result`.
- `Text`: Rust's `str::trim` over the Unicode White_Space characters, plus split,
  join and `str::lines`.
- `Validate`: `handle_validate`.
- `AppleScript`: `escape_apple_script_string` and the string-literal reading rule
  of the AppleScript Language Guide. Inside double quotes, `\"` and `\\` stand for
  a double quote and a backslash, and `\n`, `\t`, `\r` for line feed, tab and
  return. An unescaped `"` closes the literal.
- `Osascript`: `run_osascript` after the process has run.
- `Focus`: `read_last_window_title`, `FocusCursorAttempt`,
  `focus_cursor_window_by_title`, `normalize_window_title` and
  `run_focus_cursor_window`.
- `Capture`: the command-string construction of `stdout-capture`.

Three details of the code shape the model:

- When `osascript` fails with both stderr and stdout non-empty after trimming,
  the message is stderr, then `"; "`, then stdout.
- The title is the whole trimmed contents of the state file, line breaks
  included.
- Reading an existing `.gitignore` can fail. That is a hard error
  (`CannotRead`), not an accumulated issue.

In `stdout-capture` the `-c` branch keeps the program name `args[0]` in the
command, but the other branch drops it. When `args[0]` is itself `-c`, the
command starts with a space. Both are modelled as written.

## Model

| member | source | states |
|---|---|---|
| Text.Trim | cli/flow/src/main.rs:129 | `str::trim` never lengthens its input and its result starts and ends with a non-whitespace character (or is empty) |
| Text.TrimUnique | cli/flow/src/main.rs:129-131 | trimming any whitespace + trimmed text + whitespace yields exactly that text, which characterises `trim` independently of how it scans |
| Text.BlankIffAllWhitespace | cli/flow/src/main.rs:166-169 | a string trims to empty exactly when every character is whitespace |
| Text.Lines | cli/flow/src/main.rs:80-81 | `str::lines` yields at most one line per '\n'-separated segment, no line holds a '\n', and the empty string has no lines |
| Text.JoinEnds | cli/stdout-capture/src/main.rs:25-27 | `join(" ")` of a non-empty list starts with its first element and ends with its last |
| Text.JoinSplit | cli/stdout-capture/src/main.rs:25-27 | joining the pieces of a string split at a character, with that character, gives the string back |
| Text.SplitJoin | cli/stdout-capture/src/main.rs:25-27 | splitting a join of separator-free pieces at the separator gives the pieces back, so join loses nothing |
| Text.LineTrimsToIffSegment | cli/flow/src/main.rs:80-82 | some `.lines()` line trims to a non-empty target iff some '\n'-separated segment does: carriage returns and the dropped final empty line never matter |
| Validate.HasCoreMarker | cli/flow/src/main.rs:80-82 | some line trims to `# core` iff some '\n'-separated segment does: line endings and a trailing newline do not matter |
| Validate.JoinPath | cli/flow/src/main.rs:70 | the `.gitignore` path starts with the directory and ends with the file name, with exactly one '/' added only when the directory is non-empty and does not already end in '/' |
| Validate.Issue.Message | cli/flow/src/main.rs:71-89 | the missing-file line ends with the `.gitignore` path; the missing-marker line starts with the path and names the `# core` marker |
| Validate.GitignoreIssues | cli/flow/src/main.rs:68-90 | at most one issue; none iff the `.gitignore` exists and has a marker line; an absent file gives exactly the missing-file issue and an unmarked one exactly the missing-marker issue, each naming the `.gitignore` path |
| Validate.HandleValidate | cli/flow/src/main.rs:55-101 | passes iff the path is a directory whose readable `.gitignore` has the marker; a missing path, one that cannot be canonicalised and a non-directory give their own errors naming the path; a missing file gives exactly the "Missing .gitignore" issue, an unmarked one exactly the missing-marker issue, an unreadable one a hard read error; failures report a count of 1 |
| Validate.MarkerAmongLines | cli/flow/src/main.rs:80-82 | for a file made of given lines, the check passes iff one of them trims to `# core`, whatever its position and the other lines |
| Validate.MarkerLineAnywhere | cli/flow/src/main.rs:80-82 | inserting a marker line between any two texts makes the marker check pass |
| Validate.MarkerFirstLinePasses | cli/flow/src/main.rs:80-94 | a directory whose `.gitignore` starts with the marker line passes, whatever follows |
| Validate.ExampleProjectPasses | cli/flow/src/main.rs:80-94 | a `.gitignore` reading "node_modules\n# core\n" passes |
| AppleScript.ReplaceChar | cli/flow/src/main.rs:311 | replacing a character by text that does not contain it removes every occurrence |
| AppleScript.ReplaceCharIsSplitJoin | cli/flow/src/main.rs:311 | `replace` of a character equals cutting the text at every occurrence and gluing the pieces with the replacement: each occurrence becomes the replacement and all other characters are kept in order |
| AppleScript.Escape | cli/flow/src/main.rs:310-312 | text without backslashes or double quotes is embedded unchanged, and escaping never shortens |
| AppleScript.EscapeCons | cli/flow/src/main.rs:310-312 | the two replace passes act per character: the second never sees a quote made by the first |
| AppleScript.EscapeLength | cli/flow/src/main.rs:310-312 | the escaped length is the length plus the number of backslashes plus the number of double quotes |
| AppleScript.EscapeIsEscapeEach | cli/flow/src/main.rs:310-312 | the two whole-string replace passes equal escaping each character on its own |
| AppleScript.ReadEscaped | cli/flow/src/main.rs:310-312 | reading escaped text followed by a closing quote gives back exactly the text and stops right after that quote, whatever follows |
| AppleScript.QuoteRoundTrip | cli/flow/src/main.rs:310-312 | the quoted escaped text is a well-formed literal that denotes the original text |
| AppleScript.EscapeInjective | cli/flow/src/main.rs:310-312 | distinct texts escape to distinct texts |
| Osascript.RunError.Message | cli/flow/src/main.rs:248-273 | a failed script shows its composed message; "not found" names `osascript` first and the other start failure ends with it |
| Osascript.ComposeMessage | cli/flow/src/main.rs:262-272 | the failure message is never empty; it is stderr alone when only stderr has text, stderr + "; " + stdout when both do, stdout alone without stderr, and the fixed message when both are empty |
| Osascript.FailureMessage | cli/flow/src/main.rs:260-272 | from the raw streams: the trimmed stderr alone, or trimmed stderr + "; " + trimmed stdout when both have text; the trimmed stdout when only it has text; the fixed message when both are blank |
| Osascript.RunOsascript | cli/flow/src/main.rs:248-276 | success iff the process exited successfully, with trimmed stdout as the value; a non-zero exit fails with the message composed from the trimmed streams; "not found in PATH" iff the executable is missing; another start failure is its own error; errors always carry a non-empty message |
| Focus.ReadLastWindowTitle | cli/flow/src/main.rs:127-142 | a returned title is non-empty and trimmed; it is the trimmed contents when they are not blank, else the trimmed file name; an unreadable file is an error; "no title" iff the contents are blank and the name is absent or blank |
| Focus.FocusScript | cli/flow/src/main.rs:171-211 | the script begins `set targetTitle to "` and its first line ends with the closing quote, at least as long as the title plus the quotes; a title without backslashes or double quotes appears verbatim between the quotes |
| Focus.FocusScriptAssignsTitle | cli/flow/src/main.rs:171-172 | with any script text after `firstLine`, the literal still denotes exactly the title and ends at the closing quote that ends `firstLine`, even when the title holds line breaks |
| Focus.Classify | cli/flow/src/main.rs:214-245 | every output classifies to exactly one response whose token is that output; "other" responses are never a sentinel or empty |
| Focus.ClassifyToken | cli/flow/src/main.rs:214-245 | classifying a well-formed response's token gives back that response |
| Focus.AttemptsValid | cli/flow/src/main.rs:144-163 | both attempt constructors satisfy `focused <==> reason == None`; info attempts are unfocused and carry their reason |
| Focus.NormalizeWindowTitle | cli/flow/src/main.rs:306-308 | the normalised title is trimmed and no longer than the input |
| Focus.NormalizeIdempotent | cli/flow/src/main.rs:306-308 | normalising a window title twice is normalising it once |
| Focus.Verify | cli/flow/src/main.rs:215-234 | the attempt is valid; focused iff the front-window query succeeded with a title equal to the target after trimming; a failed query gives the "Unable to verify" info, never an error |
| Focus.VerifyCases | cli/flow/src/main.rs:215-229 | with a non-blank target, an empty front title is the "unnamed window" info and any other non-matching title is named in the "instead" info |
| Focus.FocusByTitle | cli/flow/src/main.rs:165-246 | an empty-title error iff the title is blank, and then no script runs; otherwise the focus script for the trimmed title runs first, and a failed run of it is returned as that run's error with nothing else run; the front-window query runs only after a FOCUSED answer, and after it the front-window query runs second and the attempt is exactly the verification of the trimmed title against it (so mismatch and unverified outcomes reach the call), never making it fail; successful attempts keep their invariant; a focused attempt implies the query confirmed the title |
| Focus.FocusResponses | cli/flow/src/main.rs:213-245 | NOT_RUNNING and NOT_FOUND give their info attempts, an empty answer the empty-response error, any other non-sentinel the unexpected-response error, and FOCUSED never an error |
| Focus.BlankTitleRunsNothing | cli/flow/src/main.rs:165-169 | a blank title is refused with the empty-title error before any script runs, whatever the interpreter would do |
| Focus.OutcomeMessage | cli/flow/src/main.rs:113-122 | a focused attempt prints the title in quotes after `Focused Cursor window `; an unfocused attempt keeping the invariant prints its own reason, never the generic fallback line; an attempt without reason (built by no constructor) would print `Unable to focus Cursor window "<title>"` |
| Focus.RunFocusCursorWindow | cli/flow/src/main.rs:103-125 | a title-read failure and a focus failure are each returned as raised; every attempt outcome, focused or not, succeeds; a title read from the state file never triggers the empty-title error; on success the printed line is the focused line or the attempt's reason |
| Focus.NotRunningPrintsReason | cli/flow/src/main.rs:103-125 | when Cursor is not running, the command succeeds and prints "Cursor is not running" |
| Focus.ConfirmedFocusPrintsTitle | cli/flow/src/main.rs:103-125 | when the script reports FOCUSED and the query confirms the trimmed title, the command prints `Focused Cursor window "<title>"` |
| Capture.FirstIndexOf | cli/stdout-capture/src/main.rs:23 | the index found holds the searched argument and none before it does; none is found iff the argument does not occur |
| Capture.CommandLine | cli/stdout-capture/src/main.rs:18-28 | no command string is built exactly when fewer than two arguments are given |
| Capture.CommandWithoutFlag | cli/stdout-capture/src/main.rs:26-27 | without `-c`, the command is the arguments after the program name joined with single spaces |
| Capture.CommandWithFlag | cli/stdout-capture/src/main.rs:23-25 | with a `-c` after the program name, the command is all arguments, program name included, joined with single spaces, however many `-c` there are |
| Capture.CommandFlagAsProgramName | cli/stdout-capture/src/main.rs:23-25 | when the program name is `-c`, the command is a space followed by all arguments joined |
| Capture.FirstIndexStable | cli/stdout-capture/src/main.rs:23 | appending arguments, `-c` or not, does not move the first `-c` |
| Capture.CommandExtends | cli/stdout-capture/src/main.rs:23-25 | arguments appended after a first `-c` are added to the end of the command after one space, and nothing before them changes |

## Left out

- File system effects (`exists`, `canonicalize`, `is_dir`, `read_to_string`, `file_name`): their outcomes are inputs (`Validate.PathState`, `Option<string>` contents and file name), and paths are their display strings.
- Spawning `osascript` and `String::from_utf8_lossy`: the process outcome is an input, and captured output is already text. The not-found versus other spawn-error distinction is kept as two input cases.
- The fixed bodies of the two AppleScript scripts (window enumeration, `AXMain`, `AXRaise`, `activate`): they run inside the external interpreter. Only the title-bearing first line of the focus script is modelled as text.
- AppleScript escapes other than `\"`, `\\`, `\n`, `\t`, `\r` are read as malformed literals. Escaping never produces them.
- `clap` parsing of subcommands, `--state-file` and `FLOW_CURSOR_LAST_WINDOW_FILE`: the model starts from the parsed values.
- Printed text beyond choosing the message: the "Latest Cursor window from …" line, the "Validation failed with N issue(s)" wording (the count is carried as a number), the `Error:` prefix and the exit code.
- In `stdout-capture`: printing the argument vector, the commented-out child-process and thread code, and `read_and_print`. The latter writes a file on the desktop and resets the terminal. None of these is active logic of the tool.
