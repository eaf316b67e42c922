/** The `flow validate` convention check (`handle_validate`). The file system
    is an input: the probed state of the path and of its `.gitignore`. */
module Validate {
  import opened Wrappers
  import opened Text

  /** The line a project's `.gitignore` must contain, up to surrounding whitespace. */
  const CoreMarker: string := "# core"

  const GitignoreName: string := ".gitignore"

  /** `Path::join` of a file name onto a directory on Unix, as used for the
      `.gitignore` path: a '/' is inserted unless the directory is empty or
      already ends with one. */
  function JoinPath(dir: string, name: string): (p: string)
    ensures |p| == |dir| + |name| + (if |dir| == 0 || dir[|dir| - 1] == '/' then 0 else 1)
    ensures dir <= p && p[|p| - |name|..] == name
    ensures dir != [] ==> p[|dir| - 1] == '/' || p[|dir|] == '/'
  {
    if |dir| == 0 || dir[|dir| - 1] == '/' then dir + name else dir + "/" + name
  }

  /** Some line of the file, trimmed, is exactly the marker. Only the
      '\n'-separated segments matter: how lines end (with or without '\r')
      and whether the file ends with a newline do not. */
  function HasCoreMarker(contents: string): (found: bool)
    ensures found <==> CoreMarker in TrimEach(Split(contents, '\n'))
  {
    LineTrimsToIffSegment(contents, CoreMarker);
    CoreMarker in TrimEach(Lines(contents))
  }

  /** A convention violation, naming the `.gitignore` path it concerns. */
  datatype Issue = MissingGitignore(file: string) | MissingCoreMarker(file: string) {
    /** The reported line: the missing-file line ends with the path, the
        missing-marker line starts with it and names the marker. */
    function Message(): (m: string)
      ensures MissingGitignore? ==> |file| < |m| && m[|m| - |file|..] == file
      ensures MissingCoreMarker? ==> file < m && |file| + 19 <= |m| && CoreMarker <= m[|file| + 19..]
    {
      match this
      case MissingGitignore(f) => "Missing .gitignore file at " + f
      case MissingCoreMarker(f) => f + " missing required '" + CoreMarker + "' marker"
    }
  }

  /** What probing the `.gitignore` of a directory found. */
  datatype GitignoreFile = Absent | Unreadable | Readable(contents: string)

  /** What probing the path to validate found: it does not exist, it cannot be
      canonicalised, its canonical form is not a directory, or it is a
      directory (named by its canonical form) with the given `.gitignore`. */
  datatype PathState =
    | Missing
    | Unresolvable
    | NotDirectory(canonical: string)
    | Directory(canonical: string, gitignore: GitignoreFile)

  datatype ValidateError =
    | DoesNotExist(path: string)
    | CannotResolve(path: string)
    | NotADirectory(dir: string)
    | CannotRead(file: string)
    | ValidationFailed(issues: seq<Issue>)
  {
    /** The count reported in "Validation failed with N issue(s)". */
    function IssueCount(): nat
      requires ValidationFailed?
    {
      |issues|
    }
  }

  /** The issues found for a `.gitignore` at `file` whose contents are given,
      or `None` when it does not exist. Issues accumulate; none means success. */
  function GitignoreIssues(file: string, gitignore: Option<string>): (issues: seq<Issue>)
    ensures |issues| <= 1
    ensures issues == [] <==> gitignore.Some? && HasCoreMarker(gitignore.value)
    ensures forall i | 0 <= i < |issues| :: issues[i].file == file
    ensures gitignore.None? ==> issues == [MissingGitignore(file)]
    ensures gitignore.Some? && !HasCoreMarker(gitignore.value) ==> issues == [MissingCoreMarker(file)]
  {
    match gitignore
    case None => [MissingGitignore(file)]
    case Some(contents) => if HasCoreMarker(contents) then [] else [MissingCoreMarker(file)]
  }

  /** `handle_validate`: `Success(dir)` is "Validation passed for dir". */
  function HandleValidate(path: string, state: PathState): (r: Result<string, ValidateError>)
    ensures r.Success? <==>
      state.Directory? && state.gitignore.Readable? && HasCoreMarker(state.gitignore.contents)
    ensures r.Success? ==> r.value == state.canonical
    ensures state.Missing? ==> r == Failure(DoesNotExist(path))
    ensures state.Unresolvable? ==> r == Failure(CannotResolve(path))
    ensures state.NotDirectory? ==> r == Failure(NotADirectory(state.canonical))
    ensures r.Failure? && r.error.ValidationFailed? ==>
      state.Directory? && r.error.IssueCount() == 1
    ensures state.Directory? && state.gitignore.Absent? ==>
      r == Failure(ValidationFailed([MissingGitignore(JoinPath(state.canonical, GitignoreName))]))
    ensures state.Directory? && state.gitignore.Readable? && !HasCoreMarker(state.gitignore.contents) ==>
      r == Failure(ValidationFailed([MissingCoreMarker(JoinPath(state.canonical, GitignoreName))]))
    ensures state.Directory? && state.gitignore.Unreadable? ==>
      r == Failure(CannotRead(JoinPath(state.canonical, GitignoreName)))
  {
    match state
    case Missing => Failure(DoesNotExist(path))
    case Unresolvable => Failure(CannotResolve(path))
    case NotDirectory(dir) => Failure(NotADirectory(dir))
    case Directory(dir, gitignore) =>
      var file := JoinPath(dir, GitignoreName);
      if gitignore.Unreadable? then Failure(CannotRead(file))
      else
        var contents := if gitignore.Readable? then Some(gitignore.contents) else None;
        var issues := GitignoreIssues(file, contents);
        if issues == [] then Success(dir) else Failure(ValidationFailed(issues))
  }

  /** For a file made of the given lines, the check passes exactly when one of
      them, trimmed, is the marker, whatever its position and whatever the
      other lines are. */
  lemma MarkerAmongLines(lines: seq<string>)
    requires |lines| >= 1
    requires forall i | 0 <= i < |lines| :: '\n' !in lines[i]
    ensures HasCoreMarker(Join(lines, "\n")) <==>
      exists i | 0 <= i < |lines| :: Trim(lines[i]) == CoreMarker
  {
    SplitJoin(lines, '\n');
    var t := TrimEach(lines);
    if exists i | 0 <= i < |lines| :: Trim(lines[i]) == CoreMarker {
      var i :| 0 <= i < |lines| && Trim(lines[i]) == CoreMarker;
      assert t[i] == CoreMarker;
    }
  }

  /** Inserting a marker line between any two pieces of text makes the check
      pass, whatever the rest of the file holds. */
  lemma MarkerLineAnywhere(before: string, line: string, after: string)
    requires '\n' !in line && Trim(line) == CoreMarker
    ensures HasCoreMarker(before + "\n" + line + "\n" + after)
  {
    var s := before + "\n" + line + "\n" + after;
    assert s == before + ['\n'] + (line + ['\n'] + after);
    SplitAppend(before, line + ['\n'] + after, '\n');
    SplitAppend(line, after, '\n');
    SplitNoSeparator(line, '\n');
    var segs := Split(s, '\n');
    assert segs == Split(before, '\n') + ([line] + Split(after, '\n'));
    assert TrimEach(segs)[|Split(before, '\n')|] == CoreMarker;
  }

  lemma MarkerIsTrimmed()
    ensures Trim(CoreMarker) == CoreMarker
  {
    assert IsTrimmed(CoreMarker);
    TrimUnique([], CoreMarker, []);
    assert [] + CoreMarker + [] == CoreMarker;
  }

  /** A `.gitignore` reading "node_modules\n# core\n" passes validation. */
  lemma ExampleProjectPasses(path: string, dir: string)
    ensures HandleValidate(path, Directory(dir, Readable("node_modules\n# core\n"))) == Success(dir)
  {
    assert "node_modules\n# core\n" == "node_modules" + "\n" + "# core" + "\n" + "";
    MarkerIsTrimmed();
    MarkerLineAnywhere("node_modules", CoreMarker, "");
  }

  /** A `.gitignore` whose first line is the marker passes, whatever follows. */
  lemma MarkerFirstLinePasses(path: string, dir: string, rest: string)
    ensures HandleValidate(path, Directory(dir, Readable(CoreMarker + "\n" + rest))) == Success(dir)
  {
    var s := CoreMarker + "\n" + rest;
    SplitAppend(CoreMarker, rest, '\n');
    SplitNoSeparator(CoreMarker, '\n');
    assert Split(s, '\n') == [CoreMarker] + Split(rest, '\n');
    MarkerIsTrimmed();
    assert TrimEach(Split(s, '\n'))[0] == CoreMarker;
  }
}
