/** `flow focus-cursor-window`: reading the target title from the state file,
    asking `osascript` to raise the Cursor window with that title, classifying
    the sentinel it answers with, verifying the front window, and choosing the
    message to print. The interpreter is a parameter that maps each script to
    the process outcome it produces. */
module Focus {
  import opened Wrappers
  import opened Text
  import opened AppleScript
  import opened Osascript

  // ---------------------------------------------------------------------
  // Reading the title (`read_last_window_title`)
  // ---------------------------------------------------------------------

  datatype TitleError = Unreadable | NoTitle

  /** The target title: the trimmed state-file contents when not blank, else
      the trimmed file name when there is one and it is not blank.
      `contents` is `None` when the file cannot be read; `fileName` is `None`
      when the path has no final component that is valid Unicode. */
  function ReadLastWindowTitle(contents: Option<string>, fileName: Option<string>): (r: Result<string, TitleError>)
    ensures r.Success? ==> r.value != [] && IsTrimmed(r.value)
    ensures r.Success? ==> contents.Some? && if !IsBlank(contents.value)
      then r.value == Trim(contents.value)
      else fileName.Some? && r.value == Trim(fileName.value)
    ensures r == Failure(Unreadable) <==> contents.None?
    ensures r == Failure(NoTitle) <==>
      contents.Some? && IsBlank(contents.value) && (fileName.None? || IsBlank(fileName.value))
  {
    match contents
    case None => Failure(Unreadable)
    case Some(text) =>
      var trimmed := Trim(text);
      if trimmed != [] then Success(trimmed)
      else match fileName
        case None => Failure(NoTitle)
        case Some(name) =>
          var fallback := Trim(name);
          if fallback != [] then Success(fallback) else Failure(NoTitle)
  }

  // ---------------------------------------------------------------------
  // Scripts and the sentinel protocol
  // ---------------------------------------------------------------------

  const TitleAssignment: string := "set targetTitle to "

  /** The two scripts the tool runs. Only the first line of the focus script
      depends on the title: it assigns the quoted, escaped title to
      `targetTitle`. The remaining, fixed script text is not modelled. */
  datatype Script = FocusWindowScript(firstLine: string) | FrontWindowTitleScript

  /** The focus script for `title`: its first line assigns the quoted,
      escaped title to `targetTitle`. A title without backslashes or double
      quotes appears verbatim between the quotes. */
  function FocusScript(title: string): (s: Script)
    ensures s.FocusWindowScript? && TitleAssignment + "\"" <= s.firstLine
    ensures |s.firstLine| >= |TitleAssignment| + |title| + 2 && s.firstLine[|s.firstLine| - 1] == '"'
    ensures '\\' !in title && '"' !in title ==> s.firstLine == TitleAssignment + "\"" + title + "\""
  {
    FocusWindowScript(TitleAssignment + Quote(title))
  }

  /** The literal in the focus script denotes exactly the title, however many
      quotes, backslashes and line breaks it holds, and ends at the closing
      quote that ends `firstLine`: whatever script text follows is left
      unread. */
  lemma FocusScriptAssignsTitle(title: string, body: string)
    ensures var line := FocusScript(title).firstLine;
      ReadLiteral((line + body)[|TitleAssignment| + 1..]) == Some((title, body))
  {
    var line := FocusScript(title).firstLine;
    assert (line + body)[|TitleAssignment| + 1..] == Escape(title) + "\"" + body;
    ReadEscaped(title, body);
  }

  const FocusedToken: string := "FOCUSED"
  const NotRunningToken: string := "NOT_RUNNING"
  const NotFoundToken: string := "NOT_FOUND"

  /** What the focus script answered, as a closed set of tokens with a
      fallback for anything else. */
  datatype Response =
    | SaysFocused
    | SaysNotRunning
    | SaysNotFound
    | SaysNothing
    | SaysOther(token: string)
  {
    /** Only tokens outside the protocol are "other". */
    predicate WellFormed() {
      SaysOther? ==> token !in {FocusedToken, NotRunningToken, NotFoundToken, ""}
    }

    /** The output that stands for this response. */
    function Token(): string {
      match this
      case SaysFocused => FocusedToken
      case SaysNotRunning => NotRunningToken
      case SaysNotFound => NotFoundToken
      case SaysNothing => ""
      case SaysOther(t) => t
    }
  }

  /** The `match result.as_str()` of the focus step, over all outputs. */
  function Classify(output: string): (r: Response)
    ensures r.WellFormed()
    ensures r.Token() == output
  {
    if output == FocusedToken then SaysFocused
    else if output == NotRunningToken then SaysNotRunning
    else if output == NotFoundToken then SaysNotFound
    else if output == "" then SaysNothing
    else SaysOther(output)
  }

  /** Classification is a bijection between outputs and well-formed responses. */
  lemma ClassifyToken(r: Response)
    requires r.WellFormed()
    ensures Classify(r.Token()) == r
  {
    var c := Classify(r.Token());
    assert c.Token() == r.Token();
  }

  // ---------------------------------------------------------------------
  // Attempts (`FocusCursorAttempt`)
  // ---------------------------------------------------------------------

  /** The outcome of a focus attempt: focused, or not with a reason to show. */
  datatype FocusAttempt = FocusAttempt(focused: bool, reason: Option<string>) {
    predicate Valid() {
      focused <==> reason.None?
    }
  }

  function FocusedAttempt(): FocusAttempt {
    FocusAttempt(true, None)
  }

  function Info(reason: string): FocusAttempt {
    FocusAttempt(false, Some(reason))
  }

  /** Both ways of building an attempt keep `focused` and `reason` in step. */
  lemma AttemptsValid(reason: string)
    ensures FocusedAttempt().Valid() && FocusedAttempt().focused
    ensures Info(reason).Valid() && !Info(reason).focused && Info(reason).reason == Some(reason)
  {
  }

  const NotRunningMessage: string := "Cursor is not running"
  const UnnamedMessage: string := "Cursor focused an unnamed window; please try again"
  const UnverifiedMessage: string := "Unable to verify Cursor window state"

  function NotFoundMessage(title: string): string {
    "No Cursor window titled \"" + title + "\" was found"
  }

  function MismatchMessage(current: string): string {
    "Cursor focused \"" + current + "\" instead"
  }

  /** `normalize_window_title` */
  function NormalizeWindowTitle(title: string): (r: string)
    ensures IsTrimmed(r) && |r| <= |title|
  {
    Trim(title)
  }

  lemma NormalizeIdempotent(title: string)
    ensures NormalizeWindowTitle(NormalizeWindowTitle(title)) == NormalizeWindowTitle(title)
  {
    TrimIdempotent(title);
  }

  /** The check after the focus script reported success, given what the
      front-window query returned. A failed query is reported, not raised. */
  function Verify(target: string, query: Result<string, RunError>): (a: FocusAttempt)
    ensures a.Valid()
    ensures a.focused <==> query.Success? && NormalizeWindowTitle(query.value) == NormalizeWindowTitle(target)
    ensures query.Failure? ==> a == Info(UnverifiedMessage)
  {
    match query
    case Failure(_) => Info(UnverifiedMessage)
    case Success(current) =>
      if NormalizeWindowTitle(current) == NormalizeWindowTitle(target) then FocusedAttempt()
      else if current == [] then Info(UnnamedMessage)
      else Info(MismatchMessage(current))
  }

  /** With a non-blank target, an empty front title always reads as an
      unnamed window, and any other non-matching title is named back. */
  lemma VerifyCases(target: string, current: string)
    requires !IsBlank(target)
    ensures current == [] ==> Verify(target, Success(current)) == Info(UnnamedMessage)
    ensures current != [] && Trim(current) != Trim(target) ==>
      Verify(target, Success(current)) == Info(MismatchMessage(current))
  {
    if current == [] {
      assert Trim(current) == [];
    }
  }

  // ---------------------------------------------------------------------
  // Focusing (`focus_cursor_window_by_title`)
  // ---------------------------------------------------------------------

  datatype FocusError =
    | EmptyTitle
    | Run(error: RunError)
    | EmptyResponse
    | UnexpectedResponse(response: string)

  /** The outcome of a focus call together with the scripts it ran, in order. */
  datatype FocusRun = FocusRun(result: Result<FocusAttempt, FocusError>, ran: seq<Script>)

  function FocusByTitle(title: string, osascript: Script -> ProcessOutput): (run: FocusRun)
    ensures run.result == Failure(EmptyTitle) <==> IsBlank(title)
    ensures run.ran == [] <==> IsBlank(title)
    ensures !IsBlank(title) ==> 1 <= |run.ran| <= 2 && run.ran[0] == FocusScript(Trim(title))
    ensures |run.ran| == 2 ==> run.ran[1] == FrontWindowTitleScript && run.result.Success?
    ensures |run.ran| == 2 ==> RunOsascript(osascript(FocusScript(Trim(title)))) == Success(FocusedToken)
    ensures !IsBlank(title) && RunOsascript(osascript(FocusScript(Trim(title)))) == Success(FocusedToken) ==>
      run == FocusRun(Success(Verify(Trim(title), RunOsascript(osascript(FrontWindowTitleScript)))),
                      [FocusScript(Trim(title)), FrontWindowTitleScript])
    ensures !IsBlank(title) && RunOsascript(osascript(FocusScript(Trim(title)))).Failure? ==>
      && run.result == Failure(Run(RunOsascript(osascript(FocusScript(Trim(title)))).error))
      && |run.ran| == 1
    ensures run.result.Success? ==> run.result.value.Valid()
    ensures run.result.Success? && run.result.value.focused ==>
      && |run.ran| == 2
      && var q := RunOsascript(osascript(FrontWindowTitleScript));
         q.Success? && Trim(q.value) == Trim(title)
  {
    var trimmed := Trim(title);
    if trimmed == [] then FocusRun(Failure(EmptyTitle), [])
    else
      var script := FocusScript(trimmed);
      match RunOsascript(osascript(script))
      case Failure(e) => FocusRun(Failure(Run(e)), [script])
      case Success(response) =>
        match Classify(response)
        case SaysFocused =>
          var query := RunOsascript(osascript(FrontWindowTitleScript));
          FocusRun(Success(Verify(trimmed, query)), [script, FrontWindowTitleScript])
        case SaysNotRunning => FocusRun(Success(Info(NotRunningMessage)), [script])
        case SaysNotFound => FocusRun(Success(Info(NotFoundMessage(trimmed))), [script])
        case SaysNothing => FocusRun(Failure(EmptyResponse), [script])
        case SaysOther(token) => FocusRun(Failure(UnexpectedResponse(token)), [script])
  }

  /** What each answer of the focus script leads to, for a non-blank title:
      the two negative sentinels are informational, an empty or unknown answer
      is a hard error, and "FOCUSED" is never a hard error. */
  lemma FocusResponses(title: string, osascript: Script -> ProcessOutput, response: string)
    requires !IsBlank(title)
    requires RunOsascript(osascript(FocusScript(Trim(title)))) == Success(response)
    ensures var result := FocusByTitle(title, osascript).result;
      && (response == NotRunningToken ==> result == Success(Info(NotRunningMessage)))
      && (response == NotFoundToken ==> result == Success(Info(NotFoundMessage(Trim(title)))))
      && (response == "" ==> result == Failure(EmptyResponse))
      && (response == FocusedToken ==> result.Success?)
      && (Classify(response).SaysOther? ==> result == Failure(UnexpectedResponse(response)))
  {
  }

  /** A blank title is refused before any script runs, whatever the
      interpreter would have done. */
  lemma BlankTitleRunsNothing(title: string, osascript: Script -> ProcessOutput)
    requires IsBlank(title)
    ensures FocusByTitle(title, osascript) == FocusRun(Failure(EmptyTitle), [])
  {
  }

  // ---------------------------------------------------------------------
  // The command (`run_focus_cursor_window`)
  // ---------------------------------------------------------------------

  const FocusedPrefix: string := "Focused Cursor window \""

  /** The line printed for an attempt on `title`: a focused attempt names the
      title in quotes, and an unfocused attempt that keeps its invariant
      prints its own reason. An unfocused attempt without a reason, which no
      constructor builds, would print a generic line naming the title. */
  function OutcomeMessage(title: string, attempt: FocusAttempt): (m: string)
    ensures attempt.focused ==>
      && |m| == |FocusedPrefix| + |title| + 1
      && FocusedPrefix <= m && m[|FocusedPrefix|..|m| - 1] == title && m[|m| - 1] == '"'
    ensures attempt.Valid() && !attempt.focused ==> m == attempt.reason.value
    ensures !attempt.focused && attempt.reason.None? ==>
      m == "Unable to focus Cursor window \"" + title + "\""
  {
    if attempt.focused then FocusedPrefix + title + "\""
    else match attempt.reason
      case Some(reason) => reason
      case None => "Unable to focus Cursor window \"" + title + "\""
  }

  datatype CommandError = TitleFailed(title: TitleError) | FocusFailed(focus: FocusError)

  /** The whole command: read the title, try to focus it, and return the
      outcome line it prints on success. Every outcome of a focus attempt,
      focused or not, is a success; a title that cannot be read and a focus
      call that fails are errors, each kept as it was raised. */
  function RunFocusCursorWindow(contents: Option<string>, fileName: Option<string>, osascript: Script -> ProcessOutput)
    : (r: Result<string, CommandError>)
    ensures ReadLastWindowTitle(contents, fileName).Failure? ==>
      r == Failure(TitleFailed(ReadLastWindowTitle(contents, fileName).error))
    ensures ReadLastWindowTitle(contents, fileName).Success? ==>
      var focus := FocusByTitle(ReadLastWindowTitle(contents, fileName).value, osascript).result;
      && (focus.Failure? ==> r == Failure(FocusFailed(focus.error)))
      && (focus.Success? ==> r.Success?)
    ensures r.Failure? && r.error.FocusFailed? ==> r.error.focus != EmptyTitle
    ensures r.Success? ==> ReadLastWindowTitle(contents, fileName).Success?
    ensures r.Success? ==>
      var title := ReadLastWindowTitle(contents, fileName).value;
      var attempt := FocusByTitle(title, osascript).result;
      attempt.Success? && r.value == (if attempt.value.focused
        then OutcomeMessage(title, attempt.value)
        else attempt.value.reason.value)
  {
    match ReadLastWindowTitle(contents, fileName)
    case Failure(e) => Failure(TitleFailed(e))
    case Success(title) =>
      match FocusByTitle(title, osascript).result
      case Failure(e) => Failure(FocusFailed(e))
      case Success(attempt) => Success(OutcomeMessage(title, attempt))
  }

  /** A readable state file whose title the focus script reports as focused,
      and which the front-window query confirms, prints the focused line. */
  lemma ConfirmedFocusPrintsTitle(text: string, fileName: Option<string>, osascript: Script -> ProcessOutput, front: string)
    requires !IsBlank(text)
    requires RunOsascript(osascript(FocusScript(Trim(text)))) == Success(FocusedToken)
    requires RunOsascript(osascript(FrontWindowTitleScript)) == Success(front)
    requires Trim(front) == Trim(text)
    ensures RunFocusCursorWindow(Some(text), fileName, osascript)
      == Success("Focused Cursor window \"" + Trim(text) + "\"")
  {
    TrimOfNonBlank(text);
    TrimIdempotent(text);
  }

  /** A readable state file with a title, when Cursor is not running, prints
      the not-running reason and succeeds. */
  lemma NotRunningPrintsReason(text: string, fileName: Option<string>, osascript: Script -> ProcessOutput)
    requires !IsBlank(text)
    requires RunOsascript(osascript(FocusScript(Trim(text)))) == Success(NotRunningToken)
    ensures RunFocusCursorWindow(Some(text), fileName, osascript) == Success(NotRunningMessage)
  {
    TrimOfNonBlank(text);
    TrimIdempotent(text);
  }
}
