/** Embedding text in an AppleScript string literal (`escape_apple_script_string`)
    and, as its partner, the literal-reading rule of the AppleScript Language
    Guide (the `text` class): inside double quotes, `\"` stands for a double
    quote, `\\` for a backslash, and `\n`, `\t`, `\r` for line feed, tab and
    return; an unescaped double quote closes the literal. */
module AppleScript {
  import opened Wrappers
  import Text

  /** The number of occurrences of `c` in `s`. */
  function Count(s: string, c: char): nat {
    if |s| == 0 then 0 else (if s[0] == c then 1 else 0) + Count(s[1..], c)
  }

  /** `str::replace(c, rep)`: every occurrence of `c` in `s` becomes `rep`. */
  function ReplaceChar(s: string, c: char, rep: string): (r: string)
    ensures c !in rep ==> c !in r
    ensures c !in s ==> r == s
    ensures |rep| >= 1 ==> |s| <= |r|
  {
    if |s| == 0 then []
    else (if s[0] == c then rep else [s[0]]) + ReplaceChar(s[1..], c, rep)
  }

  lemma {:induction false} ReplaceCharAppend(a: string, b: string, c: char, rep: string)
    ensures ReplaceChar(a + b, c, rep) == ReplaceChar(a, c, rep) + ReplaceChar(b, c, rep)
  {
    if |a| == 0 {
      assert a + b == b;
    } else {
      assert (a + b)[0] == a[0];
      assert (a + b)[1..] == a[1..] + b;
      ReplaceCharAppend(a[1..], b, c, rep);
    }
  }

  /** `str::replace` against an independent reference: cut `s` at every `c`
      and glue the pieces back together with `rep`. So every `c` becomes
      `rep`, and every other character is kept, in order. */
  lemma {:induction false} ReplaceCharIsSplitJoin(s: string, c: char, rep: string)
    ensures ReplaceChar(s, c, rep) == Text.Join(Text.Split(s, c), rep)
  {
    if |s| > 0 {
      var rest := Text.Split(s[1..], c);
      ReplaceCharIsSplitJoin(s[1..], c, rep);
      if s[0] == c {
        assert ([[]] + rest)[1..] == rest;
      } else {
        var parts := [[s[0]] + rest[0]] + rest[1..];
        assert parts[1..] == rest[1..];
        if |rest| > 1 {
          assert Text.Join(rest, rep) == rest[0] + rep + Text.Join(rest[1..], rep);
        }
      }
    }
  }

  /** `escape_apple_script_string`: backslashes are doubled first, then each
      double quote gets a backslash in front of it. Text with neither is
      embedded unchanged, and escaping never shortens. */
  function Escape(value: string): (r: string)
    ensures '\\' !in value && '"' !in value ==> r == value
    ensures |value| <= |r|
  {
    ReplaceChar(ReplaceChar(value, '\\', "\\\\"), '"', "\\\"")
  }

  /** What escaping makes of one character. */
  function EscapeChar(c: char): string {
    if c == '\\' then "\\\\" else if c == '"' then "\\\"" else [c]
  }

  /** The two passes act character by character: the second pass never sees a
      double quote introduced by the first. */
  lemma EscapeCons(c: char, t: string)
    ensures Escape([c] + t) == EscapeChar(c) + Escape(t)
  {
    var once := ReplaceChar([c] + t, '\\', "\\\\");
    assert ([c] + t)[1..] == t;
    assert once == (if c == '\\' then "\\\\" else [c]) + ReplaceChar(t, '\\', "\\\\");
    ReplaceCharAppend(if c == '\\' then "\\\\" else [c], ReplaceChar(t, '\\', "\\\\"), '"', "\\\"");
    if c == '\\' {
      assert ReplaceChar("\\\\", '"', "\\\"") == "\\\\";
    } else if c == '"' {
      assert ReplaceChar("\"", '"', "\\\"") == "\\\"";
    } else {
      assert ReplaceChar([c], '"', "\\\"") == [c];
    }
  }

  /** Escaping adds one character per backslash and one per double quote. */
  lemma {:induction false} EscapeLength(s: string)
    ensures |Escape(s)| == |s| + Count(s, '\\') + Count(s, '"')
  {
    if |s| > 0 {
      assert s == [s[0]] + s[1..];
      EscapeCons(s[0], s[1..]);
      EscapeLength(s[1..]);
    }
  }

  /** The character an escape sequence `\c` stands for inside a literal. */
  function EscapedValue(c: char): Option<char> {
    if c == '\\' then Some('\\')
    else if c == '"' then Some('"')
    else if c == 'n' then Some('\n')
    else if c == 't' then Some('\t')
    else if c == 'r' then Some('\r')
    else None
  }

  /** Reads a string literal whose opening quote has been consumed: the text
      it denotes and what follows its closing quote, or `None` when the
      literal is unterminated or holds an unknown escape. */
  function ReadLiteral(t: string): (r: Option<(string, string)>)
    ensures r.Some? ==> |r.value.1| < |t| && r.value.1 == t[|t| - |r.value.1|..]
    decreases |t|
  {
    if |t| == 0 then None
    else if t[0] == '"' then Some(([], t[1..]))
    else if t[0] == '\\' then
      if |t| == 1 then None
      else match EscapedValue(t[1])
        case None => None
        case Some(v) =>
          match ReadLiteral(t[2..])
          case None => None
          case Some((body, rest)) => Some(([v] + body, rest))
    else
      match ReadLiteral(t[1..])
      case None => None
      case Some((body, rest)) => Some(([t[0]] + body, rest))
  }

  /** The value of a complete literal `"..."` that nothing follows. */
  function ParseLiteral(lit: string): Option<string> {
    if |lit| > 0 && lit[0] == '"' then
      match ReadLiteral(lit[1..])
      case Some((value, rest)) => if rest == [] then Some(value) else None
      case None => None
    else None
  }

  /** `"` + escaped text + `"`, as the script embeds a title. */
  function Quote(s: string): string {
    "\"" + Escape(s) + "\""
  }

  /** One escaped character, then more literal text. */
  lemma ReadEscapedChar(c: char, tail: string, body: string, rest: string)
    requires ReadLiteral(tail) == Some((body, rest))
    ensures ReadLiteral(EscapeChar(c) + tail) == Some(([c] + body, rest))
  {
    var t := EscapeChar(c) + tail;
    if c == '\\' || c == '"' {
      assert t[0] == '\\' && t[1] == c && t[2..] == tail;
    } else {
      assert t[0] == c && t[1..] == tail;
    }
  }

  /** Escaping, one character at a time. */
  function EscapeEach(s: string): string {
    if |s| == 0 then [] else EscapeChar(s[0]) + EscapeEach(s[1..])
  }

  /** The two replace passes are the same as escaping each character. */
  lemma {:induction false} EscapeIsEscapeEach(s: string)
    ensures Escape(s) == EscapeEach(s)
  {
    if |s| > 0 {
      assert s == [s[0]] + s[1..];
      EscapeCons(s[0], s[1..]);
      EscapeIsEscapeEach(s[1..]);
    }
  }

  lemma {:induction false} ReadEscapedEach(s: string, rest: string)
    ensures ReadLiteral(EscapeEach(s) + "\"" + rest) == Some((s, rest))
  {
    if |s| == 0 {
      assert EscapeEach(s) + "\"" + rest == "\"" + rest;
      assert ("\"" + rest)[1..] == rest;
    } else {
      var c, u := s[0], s[1..];
      var tail := EscapeEach(u) + "\"" + rest;
      assert EscapeEach(s) + "\"" + rest == EscapeChar(c) + tail;
      ReadEscapedEach(u, rest);
      ReadEscapedChar(c, tail, u, rest);
      assert [c] + u == s;
    }
  }

  /** Reading an escaped text followed by a closing quote gives back exactly
      the text, and stops right after that quote, whatever follows it. */
  lemma ReadEscaped(s: string, rest: string)
    ensures ReadLiteral(Escape(s) + "\"" + rest) == Some((s, rest))
  {
    EscapeIsEscapeEach(s);
    ReadEscapedEach(s, rest);
  }

  /** The quoted, escaped text is a well-formed literal denoting the text. */
  lemma QuoteRoundTrip(s: string)
    ensures ParseLiteral(Quote(s)) == Some(s)
  {
    ReadEscaped(s, []);
    assert Quote(s)[1..] == Escape(s) + "\"" + [];
  }

  /** Distinct texts have distinct escapes. */
  lemma EscapeInjective(a: string, b: string)
    requires Escape(a) == Escape(b)
    ensures a == b
  {
    ReadEscaped(a, []);
    ReadEscaped(b, []);
  }
}
