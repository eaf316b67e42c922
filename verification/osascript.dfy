/** `run_osascript` once the interpreter process has been started or has
    failed to start: how its exit status and captured output become a result
    or an error. Spawning the process is outside the model; its outcome is an
    input. */
module Osascript {
  import opened Wrappers
  import opened Text

  /** What starting and waiting for `osascript` produced: the executable was
      not found, it could not be started for another reason, or it exited. */
  datatype ProcessOutput =
    | NotInPath
    | SpawnFailed
    | Exited(success: bool, stdout: string, stderr: string)

  datatype RunError =
    | InterpreterNotFound
    | CouldNotRun
    | ScriptFailed(message: string)
  {
    /** The error text shown: fixed for the two start failures, the composed
        message for a failed script. */
    function Message(): (m: string)
      ensures ScriptFailed? ==> m == message
      ensures InterpreterNotFound? ==> "osascript" <= m
      ensures CouldNotRun? ==> |m| >= 9 && m[|m| - 9..] == "osascript"
    {
      match this
      case InterpreterNotFound => "osascript not found in PATH"
      case CouldNotRun => "failed to run osascript"
      case ScriptFailed(m) => m
    }
  }

  const GenericFailure: string := "osascript exited with an error"

  /** The error message of a failed run from already-trimmed `out` and `err`:
      `err`, followed by "; " and `out` when both are non-empty; else `out`;
      else a fixed message. It is never empty and contains each non-empty
      stream, stderr first. */
  function ComposeMessage(out: string, err: string): (m: string)
    ensures m != []
    ensures err != [] ==> err <= m
    ensures out != [] ==> |out| <= |m| && m[|m| - |out|..] == out
    ensures err != [] && out == [] ==> m == err
    ensures err != [] && out != [] ==> m == err + "; " + out
    ensures err == [] && out != [] ==> m == out
    ensures err == [] && out == [] ==> m == GenericFailure
  {
    var message := if err == [] then out else if out != [] then err + "; " + out else err;
    if message == [] then GenericFailure else message
  }

  /** The error message built from the captured output of a failed run: the
      trimmed stderr, followed by "; " and the trimmed stdout when both have
      text; the trimmed stdout when only it has text; the fixed message when
      neither has. */
  function FailureMessage(stdout: string, stderr: string): (m: string)
    ensures m != []
    ensures !IsBlank(stderr) ==> Trim(stderr) <= m
    ensures !IsBlank(stderr) && IsBlank(stdout) ==> m == Trim(stderr)
    ensures !IsBlank(stderr) && !IsBlank(stdout) ==> m == Trim(stderr) + "; " + Trim(stdout)
    ensures IsBlank(stderr) && !IsBlank(stdout) ==> m == Trim(stdout)
    ensures IsBlank(stderr) && IsBlank(stdout) ==> m == GenericFailure
  {
    ComposeMessage(Trim(stdout), Trim(stderr))
  }

  /** The outcome of one `osascript` run: on a zero exit status, the trimmed
      standard output; on a non-zero one, the message composed from both
      streams; a process that could not be started is its own error. Error
      messages are never empty. */
  function RunOsascript(p: ProcessOutput): (r: Result<string, RunError>)
    ensures r.Success? <==> p.Exited? && p.success
    ensures r.Success? ==> r.value == Trim(p.stdout) && IsTrimmed(r.value)
    ensures r == Failure(InterpreterNotFound) <==> p.NotInPath?
    ensures p.SpawnFailed? ==> r == Failure(CouldNotRun)
    ensures p.Exited? && !p.success ==>
      r == Failure(ScriptFailed(ComposeMessage(Trim(p.stdout), Trim(p.stderr))))
    ensures r.Failure? ==> r.error.Message() != []
  {
    match p
    case NotInPath => Failure(InterpreterNotFound)
    case SpawnFailed => Failure(CouldNotRun)
    case Exited(success, stdout, stderr) =>
      if success then Success(Trim(stdout)) else Failure(ScriptFailed(FailureMessage(stdout, stderr)))
  }
}
