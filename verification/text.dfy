/** String primitives of Rust's `str` that the tools rely on: whitespace
    trimming, splitting on a separator character, joining with a separator,
    and `str::lines`. Strings are sequences of Unicode scalar values. */
module Text {

  /** The characters with the Unicode White_Space property, which Rust's
      `char::is_whitespace` (and so `str::trim`) recognises. */
  const WhitespaceChars: set<char> := {
    '\t', '\n', '\U{000B}', '\U{000C}', '\r', ' ', '\U{0085}', '\U{00A0}', '\U{1680}',
    '\U{2000}', '\U{2001}', '\U{2002}', '\U{2003}', '\U{2004}', '\U{2005}', '\U{2006}',
    '\U{2007}', '\U{2008}', '\U{2009}', '\U{200A}', '\U{2028}', '\U{2029}', '\U{202F}',
    '\U{205F}', '\U{3000}'
  }

  predicate IsWhitespace(c: char) {
    c in WhitespaceChars
  }

  predicate AllWhitespace(s: string) {
    forall i | 0 <= i < |s| :: IsWhitespace(s[i])
  }

  /** Neither end of `s` is whitespace (vacuously true of the empty string). */
  predicate IsTrimmed(s: string) {
    |s| == 0 || (!IsWhitespace(s[0]) && !IsWhitespace(s[|s| - 1]))
  }

  lemma AllWhitespaceConcat(a: string, b: string)
    ensures AllWhitespace(a + b) <==> AllWhitespace(a) && AllWhitespace(b)
  {
    if AllWhitespace(a + b) {
      forall i | 0 <= i < |a| ensures IsWhitespace(a[i]) { assert a[i] == (a + b)[i]; }
      forall i | 0 <= i < |b| ensures IsWhitespace(b[i]) { assert b[i] == (a + b)[|a| + i]; }
    }
  }

  /** The index of the first non-whitespace character of `s` at or after `i`,
      or `|s|` when there is none. */
  function SkipStart(s: string, i: nat): (k: nat)
    requires i <= |s|
    ensures i <= k <= |s|
    ensures k < |s| ==> !IsWhitespace(s[k])
    decreases |s| - i
  {
    if i < |s| && IsWhitespace(s[i]) then SkipStart(s, i + 1) else i
  }

  /** The index just past the last non-whitespace character of `s` in
      `[lo, j)`, or `lo` when there is none. */
  function SkipEnd(s: string, lo: nat, j: nat): (k: nat)
    requires lo <= j <= |s|
    ensures lo <= k <= j
    ensures k > lo ==> !IsWhitespace(s[k - 1])
    decreases j
  {
    if j > lo && IsWhitespace(s[j - 1]) then SkipEnd(s, lo, j - 1) else j
  }

  /** `str::trim`: `s` with leading and trailing whitespace removed. */
  function Trim(s: string): (r: string)
    ensures |r| <= |s|
    ensures IsTrimmed(r)
  {
    var start := SkipStart(s, 0);
    s[start..SkipEnd(s, start, |s|)]
  }

  /** `trim().is_empty()` */
  predicate IsBlank(s: string) {
    Trim(s) == []
  }

  lemma {:induction false} SkipStartSkipsWhitespace(s: string, i: nat)
    requires i <= |s|
    ensures forall j | i <= j < SkipStart(s, i) :: IsWhitespace(s[j])
    decreases |s| - i
  {
    if i < |s| && IsWhitespace(s[i]) {
      SkipStartSkipsWhitespace(s, i + 1);
    }
  }

  lemma {:induction false} SkipEndSkipsWhitespace(s: string, lo: nat, j: nat)
    requires lo <= j <= |s|
    ensures forall m | SkipEnd(s, lo, j) <= m < j :: IsWhitespace(s[m])
    decreases j
  {
    if j > lo && IsWhitespace(s[j - 1]) {
      SkipEndSkipsWhitespace(s, lo, j - 1);
    }
  }

  /** `SkipStart` stops at the first non-whitespace character. */
  lemma {:induction false} SkipStartAt(s: string, i: nat, k: nat)
    requires i <= k <= |s|
    requires forall j | i <= j < k :: IsWhitespace(s[j])
    requires k == |s| || !IsWhitespace(s[k])
    ensures SkipStart(s, i) == k
    decreases k - i
  {
    if i < k {
      SkipStartAt(s, i + 1, k);
    }
  }

  /** `SkipEnd` stops just past the last non-whitespace character. */
  lemma {:induction false} SkipEndAt(s: string, lo: nat, j: nat, k: nat)
    requires lo <= k <= j <= |s|
    requires forall m | k <= m < j :: IsWhitespace(s[m])
    requires k == lo || !IsWhitespace(s[k - 1])
    ensures SkipEnd(s, lo, j) == k
    decreases j - k
  {
    if k < j {
      SkipEndAt(s, lo, j - 1, k);
    }
  }

  /** Splits `s` around its trim: the trimmed part is a slice of `s` with
      nothing but whitespace on either side of it. */
  lemma TrimSplit(s: string) returns (a: string, c: string)
    ensures s == a + Trim(s) + c
    ensures AllWhitespace(a) && AllWhitespace(c)
  {
    var start := SkipStart(s, 0);
    var end := SkipEnd(s, start, |s|);
    SkipStartSkipsWhitespace(s, 0);
    SkipEndSkipsWhitespace(s, start, |s|);
    a, c := s[..start], s[end..];
    assert s == a + s[start..end] + c;
  }

  /** Trim is characterised independently of its definition: whatever
      whitespace surrounds a trimmed middle part, trimming yields that part. */
  lemma TrimUnique(a: string, m: string, b: string)
    requires AllWhitespace(a) && AllWhitespace(b) && IsTrimmed(m)
    ensures Trim(a + m + b) == m
  {
    var s := a + m + b;
    if |m| == 0 {
      assert s == a + b;
      AllWhitespaceConcat(a, b);
      SkipStartAt(s, 0, |s|);
    } else {
      assert forall j | 0 <= j < |a| :: s[j] == a[j];
      assert s[|a|] == m[0];
      SkipStartAt(s, 0, |a|);
      assert forall j | |a| + |m| <= j < |s| :: s[j] == b[j - |a| - |m|];
      assert s[|a| + |m| - 1] == m[|m| - 1];
      SkipEndAt(s, |a|, |s|, |a| + |m|);
      assert s[|a|..|a| + |m|] == m;
    }
  }

  lemma TrimIdempotent(s: string)
    ensures Trim(Trim(s)) == Trim(s)
  {
    TrimUnique([], Trim(s), []);
    assert [] + Trim(s) + [] == Trim(s);
  }

  /** A string is blank exactly when it consists of whitespace only. */
  lemma BlankIffAllWhitespace(s: string)
    ensures IsBlank(s) <==> AllWhitespace(s)
  {
    if AllWhitespace(s) {
      TrimUnique(s, [], []);
      assert s + [] + [] == s;
    }
    if IsBlank(s) {
      var a, c := TrimSplit(s);
      assert s == a + c;
      AllWhitespaceConcat(a, c);
    }
  }

  /** A non-blank string trims to a non-empty, trimmed string. */
  lemma TrimOfNonBlank(s: string)
    requires !IsBlank(s)
    ensures Trim(s) != [] && IsTrimmed(Trim(s)) && !IsBlank(Trim(s))
  {
    TrimIdempotent(s);
  }

  /** Appending whitespace (such as a carriage return) does not change the trim. */
  lemma TrimIgnoresTrailingWhitespace(s: string, b: string)
    requires AllWhitespace(b)
    ensures Trim(s + b) == Trim(s)
  {
    var a, c := TrimSplit(s);
    AllWhitespaceConcat(c, b);
    assert s + b == a + Trim(s) + (c + b);
    TrimUnique(a, Trim(s), c + b);
  }

  /** `[T]::join(sep)`: the parts with `sep` between consecutive ones. */
  function Join(parts: seq<string>, sep: string): string {
    if |parts| == 0 then []
    else if |parts| == 1 then parts[0]
    else parts[0] + sep + Join(parts[1..], sep)
  }

  /** A join starts with the first part and ends with the last. */
  lemma {:induction false} JoinEnds(parts: seq<string>, sep: string)
    requires |parts| > 0
    ensures parts[0] <= Join(parts, sep)
    ensures var r, last := Join(parts, sep), parts[|parts| - 1];
      |last| <= |r| && r[|r| - |last|..] == last
  {
    if |parts| > 1 {
      JoinEnds(parts[1..], sep);
      assert parts[1..][|parts| - 2] == parts[|parts| - 1];
    }
  }

  lemma {:induction false} JoinAppend(a: seq<string>, b: seq<string>, sep: string)
    requires |a| > 0 && |b| > 0
    ensures Join(a + b, sep) == Join(a, sep) + sep + Join(b, sep)
  {
    if |a| == 1 {
      assert (a + b)[1..] == b;
    } else {
      assert (a + b)[1..] == a[1..] + b;
      JoinAppend(a[1..], b, sep);
    }
  }

  /** `str::split(sep)`: the maximal separator-free segments of `s`, in order.
      There is always at least one segment. */
  function Split(s: string, sep: char): (parts: seq<string>)
    ensures |parts| >= 1
    ensures forall i | 0 <= i < |parts| :: sep !in parts[i]
  {
    if |s| == 0 then [[]]
    else
      var rest := Split(s[1..], sep);
      if s[0] == sep then [[]] + rest
      else [[s[0]] + rest[0]] + rest[1..]
  }

  /** Joining the segments with the separator gives back the string. */
  lemma {:induction false} JoinSplit(s: string, sep: char)
    ensures Join(Split(s, sep), [sep]) == s
  {
    if |s| > 0 {
      var rest := Split(s[1..], sep);
      JoinSplit(s[1..], sep);
      if s[0] == sep {
        assert ([[]] + rest)[1..] == rest;
        assert s == [sep] + s[1..];
      } else {
        var parts := [[s[0]] + rest[0]] + rest[1..];
        assert parts[1..] == rest[1..];
        if |rest| > 1 {
          assert Join(rest, [sep]) == rest[0] + [sep] + Join(rest[1..], [sep]);
        }
        assert s == [s[0]] + s[1..];
      }
    }
  }

  lemma {:induction false} SplitNoSeparator(x: string, sep: char)
    requires sep !in x
    ensures Split(x, sep) == [x]
  {
    if |x| > 0 {
      assert x[1..] == x[|x| - |x[1..]|..];
      SplitNoSeparator(x[1..], sep);
      assert x == [x[0]] + x[1..];
    }
  }

  /** A separator between `x` and `y` splits them into separate segment lists. */
  lemma {:induction false} SplitAppend(x: string, y: string, sep: char)
    ensures Split(x + [sep] + y, sep) == Split(x, sep) + Split(y, sep)
  {
    if |x| == 0 {
      assert x + [sep] + y == [sep] + y;
      assert ([sep] + y)[1..] == y;
    } else {
      assert (x + [sep] + y)[1..] == x[1..] + [sep] + y;
      assert (x + [sep] + y)[0] == x[0];
      SplitAppend(x[1..], y, sep);
    }
  }

  /** Splitting the separator-joined parts gives back the parts. */
  lemma {:induction false} SplitJoin(parts: seq<string>, sep: char)
    requires |parts| >= 1
    requires forall i | 0 <= i < |parts| :: sep !in parts[i]
    ensures Split(Join(parts, [sep]), sep) == parts
  {
    SplitNoSeparator(parts[0], sep);
    if |parts| > 1 {
      SplitJoin(parts[1..], sep);
      SplitAppend(parts[0], Join(parts[1..], [sep]), sep);
      assert parts == [parts[0]] + parts[1..];
    }
  }

  /** A terminated line loses one carriage return before its line feed. */
  function StripCarriageReturn(line: string): string {
    if |line| > 0 && line[|line| - 1] == '\r' then line[..|line| - 1] else line
  }

  /** `str::lines`: the '\n'-separated lines of `s`; a final empty line (after
      a trailing '\n', or of the empty string) is not a line, and a '\r'
      immediately before a '\n' belongs to the line ending. */
  function Lines(s: string): (ls: seq<string>)
    ensures |ls| <= |Split(s, '\n')|
    ensures forall i | 0 <= i < |ls| :: '\n' !in ls[i]
    ensures s == [] ==> ls == []
  {
    LinesOfSegments(Split(s, '\n'))
  }

  /** The lines made from '\n'-separated segments: every segment but the last
      was terminated by a '\n'; the last one was not. */
  function LinesOfSegments(segs: seq<string>): seq<string>
    requires |segs| >= 1
  {
    var last := segs[|segs| - 1];
    seq(|segs| - 1, i requires 0 <= i < |segs| - 1 => StripCarriageReturn(segs[i]))
      + (if |last| == 0 then [] else [last])
  }

  lemma TrimStripCarriageReturn(line: string)
    ensures Trim(StripCarriageReturn(line)) == Trim(line)
  {
    if |line| > 0 && line[|line| - 1] == '\r' {
      assert line == line[..|line| - 1] + ['\r'];
      TrimIgnoresTrailingWhitespace(line[..|line| - 1], ['\r']);
    }
  }

  /** Every string of `ls`, trimmed. */
  function TrimEach(ls: seq<string>): (r: seq<string>)
    ensures |r| == |ls|
  {
    seq(|ls|, i requires 0 <= i < |ls| => Trim(ls[i]))
  }

  /** Trimmed, the lines are the trimmed segments, except that an empty last
      segment is not a line. */
  lemma LinesTrimLikeSegments(segs: seq<string>)
    requires |segs| >= 1
    ensures var t := TrimEach(segs); var l := TrimEach(LinesOfSegments(segs));
      l == t || l + [[]] == t
  {
    var lines := LinesOfSegments(segs);
    var n := |segs| - 1;
    var l, t := TrimEach(lines), TrimEach(segs);
    forall i | 0 <= i < n
      ensures l[i] == t[i]
    {
      TrimStripCarriageReturn(segs[i]);
    }
    if segs[n] == [] {
      assert |l| == n;
      assert t[n] == [];
      assert l + [[]] == t;
    } else {
      assert |l| == |segs| && lines[n] == segs[n];
      assert l[n] == t[n];
      assert l == t;
    }
  }

  /** Whether some line of `s` trims to `target` depends only on the
      '\n'-separated segments: carriage returns and the dropped final empty
      line never matter for a non-empty target. */
  lemma LineTrimsToIffSegment(s: string, target: string)
    requires target != []
    ensures target in TrimEach(Lines(s)) <==> target in TrimEach(Split(s, '\n'))
  {
    LinesTrimLikeSegments(Split(s, '\n'));
  }
}
