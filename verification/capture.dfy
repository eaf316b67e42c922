/** The command line that `stdout-capture` builds from its argument vector
    (`args[0]` is the program name). Running the command is not part of the
    tool's active code. */
module Capture {
  import opened Wrappers
  import opened Text

  const CommandFlag: string := "-c"

  /** `Iterator::position`: the index of the first element equal to `x`. */
  function FirstIndexOf(xs: seq<string>, x: string): (r: Option<nat>)
    ensures r.None? <==> x !in xs
    ensures r.Some? ==> r.value < |xs| && xs[r.value] == x
    ensures r.Some? ==> forall j | 0 <= j < r.value :: xs[j] != x
  {
    if |xs| == 0 then None
    else if xs[0] == x then Some(0)
    else match FirstIndexOf(xs[1..], x)
      case None => None
      case Some(i) => Some(i + 1)
  }

  /** The command string, or `None` ("Provide a command to run") when fewer
      than two arguments are given. With a "-c" among the arguments, the
      arguments before its first occurrence and those from it on are each
      joined with spaces, and the two joined with one more space; without
      one, the arguments after the program name are joined with spaces. */
  function CommandLine(args: seq<string>): (r: Option<string>)
    ensures r.None? <==> |args| < 2
  {
    if |args| < 2 then None
    else match FirstIndexOf(args, CommandFlag)
      case Some(i) => Some(Join(args[..i], " ") + " " + Join(args[i..], " "))
      case None => Some(Join(args[1..], " "))
  }

  /** Without "-c", the command is the arguments after the program name. */
  lemma CommandWithoutFlag(args: seq<string>)
    requires |args| >= 2 && CommandFlag !in args
    ensures CommandLine(args) == Some(Join(args[1..], " "))
  {
  }

  /** With a "-c" after the program name, the command is every argument,
      program name included, joined with spaces, however many "-c" follow. */
  lemma CommandWithFlag(args: seq<string>)
    requires |args| >= 2 && CommandFlag in args[1..]
    requires args[0] != CommandFlag
    ensures CommandLine(args) == Some(Join(args, " "))
  {
    var i := FirstIndexOf(args, CommandFlag).value;
    assert i > 0;
    assert args == args[..i] + args[i..];
    JoinAppend(args[..i], args[i..], " ");
  }

  /** When the program name itself is "-c", the prefix is empty and the
      command starts with a space. */
  lemma CommandFlagAsProgramName(args: seq<string>)
    requires |args| >= 2 && args[0] == CommandFlag
    ensures CommandLine(args) == Some(" " + Join(args, " "))
  {
    assert FirstIndexOf(args, CommandFlag) == Some(0);
    assert args[..0] == [] && args[0..] == args;
    assert Join(args[..0], " ") == [];
    assert CommandLine(args) == Some(Join(args[..0], " ") + " " + Join(args[0..], " "));
    assert [] + " " + Join(args, " ") == " " + Join(args, " ");
  }

  /** The split happens at the first "-c": appending arguments, "-c" or not,
      does not move it. */
  lemma {:induction false} FirstIndexStable(xs: seq<string>, more: seq<string>, x: string)
    requires x in xs
    ensures FirstIndexOf(xs + more, x) == FirstIndexOf(xs, x)
  {
    if xs[0] != x {
      assert (xs + more)[1..] == xs[1..] + more;
      FirstIndexStable(xs[1..], more, x);
    }
  }

  lemma JoinBeforeSplit(args: seq<string>, more: seq<string>, i: nat, sep: string)
    requires i <= |args|
    ensures Join((args + more)[..i], sep) == Join(args[..i], sep)
  {
    assert (args + more)[..i] == args[..i];
  }

  /** Splitting a longer vector at the same index: the appended arguments
      join onto the end of the part after the split. */
  lemma JoinAroundSplit(args: seq<string>, more: seq<string>, i: nat, sep: string)
    requires i < |args| && |more| > 0
    ensures Join((args + more)[..i], sep) + sep + Join((args + more)[i..], sep)
      == (Join(args[..i], sep) + sep + Join(args[i..], sep)) + sep + Join(more, sep)
  {
    JoinBeforeSplit(args, more, i, sep);
    var tail := (args + more)[i..];
    assert tail == args[i..] + more;
    JoinAppend(args[i..], more, sep);
  }

  /** Arguments after a first "-c" end up at the end of the command, after
      one space, and change nothing before them. */
  lemma CommandExtends(args: seq<string>, more: seq<string>)
    requires |args| >= 2 && CommandFlag in args && |more| > 0
    ensures CommandLine(args + more).Some? && CommandLine(args).Some?
    ensures CommandLine(args + more).value == CommandLine(args).value + " " + Join(more, " ")
  {
    var i := FirstIndexOf(args, CommandFlag).value;
    FirstIndexStable(args, more, CommandFlag);
    JoinAroundSplit(args, more, i, " ");
  }
}
