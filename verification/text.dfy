/** The two pieces of Rust string handling the post-processing pipeline
    relies on: `str::trim` and `str::lines`. */
module Text {

  /** Rust's `char::is_whitespace`: the Unicode White_Space property. */
  predicate IsWhitespace(c: char) {
    || '\t' <= c <= '\r'
    || c == ' '
    || c == '\U{0085}'
    || c == '\U{00A0}'
    || c == '\U{1680}'
    || '\U{2000}' <= c <= '\U{200A}'
    || c == '\U{2028}'
    || c == '\U{2029}'
    || c == '\U{202F}'
    || c == '\U{205F}'
    || c == '\U{3000}'
  }

  predicate AllWhitespace(s: string) {
    forall i :: 0 <= i < |s| ==> IsWhitespace(s[i])
  }

  /** `s` has no whitespace at either end. */
  predicate IsTrimmed(s: string) {
    s == [] || (!IsWhitespace(s[0]) && !IsWhitespace(s[|s| - 1]))
  }

  /** Number of whitespace characters at the start of `s`. */
  function LeadingWhitespace(s: string): (n: nat)
    ensures n <= |s|
    ensures forall i :: 0 <= i < n ==> IsWhitespace(s[i])
    ensures n < |s| ==> !IsWhitespace(s[n])
    decreases |s|
  {
    if s != [] && IsWhitespace(s[0]) then 1 + LeadingWhitespace(s[1..]) else 0
  }

  /** Position where the whitespace at the end of `s` starts. */
  function TrailingWhitespaceStart(s: string): (m: nat)
    ensures m <= |s|
    ensures forall i :: m <= i < |s| ==> IsWhitespace(s[i])
    ensures m > 0 ==> !IsWhitespace(s[m - 1])
    decreases |s|
  {
    if s != [] && IsWhitespace(s[|s| - 1]) then TrailingWhitespaceStart(s[..|s| - 1]) else |s|
  }

  /** Where the trimmed text starts and ends in `s`. */
  function TrimBounds(s: string): (b: (nat, nat))
    ensures b.0 <= b.1 <= |s|
    ensures forall i :: 0 <= i < b.0 ==> IsWhitespace(s[i])
    ensures forall i :: b.1 <= i < |s| ==> IsWhitespace(s[i])
    ensures b.0 < b.1 ==> !IsWhitespace(s[b.0]) && !IsWhitespace(s[b.1 - 1])
  {
    var a := LeadingWhitespace(s);
    if a == |s| then (a, a) else (a, TrailingWhitespaceStart(s))
  }

  /** Rust's `str::trim`: `s` is whitespace, then the result, then
      whitespace, and the result has no whitespace at either end. */
  function Trim(s: string): (r: string)
    ensures IsTrimmed(r)
    ensures r == s[TrimBounds(s).0..TrimBounds(s).1]
  {
    var b := TrimBounds(s);
    s[b.0..b.1]
  }

  /** Trimming leaves already-trimmed text alone. */
  lemma TrimOfTrimmed(s: string)
    requires IsTrimmed(s)
    ensures Trim(s) == s
  {
    if s != [] {
      assert LeadingWhitespace(s) == 0;
      assert TrailingWhitespaceStart(s) == |s|;
    }
  }

  /** Trimming twice is trimming once. */
  lemma TrimIdempotent(s: string)
    ensures Trim(Trim(s)) == Trim(s)
  {
    TrimOfTrimmed(Trim(s));
  }

  /** Trailing whitespace after trimmed text is removed by trimming. */
  lemma TrimDropsTrailingWhitespace(t: string, c: char)
    requires IsTrimmed(t) && t != []
    requires IsWhitespace(c)
    ensures Trim(t + [c]) == t
  {
    var s := t + [c];
    assert LeadingWhitespace(s) == 0;
    assert s[..|s| - 1] == t;
    assert TrailingWhitespaceStart(t) == |t|;
    assert TrailingWhitespaceStart(s) == |t|;
  }

  /** Position of the first line feed in `s`. */
  function FirstNewline(s: string): (i: nat)
    requires '\n' in s
    ensures i < |s| && s[i] == '\n'
    ensures '\n' !in s[..i]
  {
    if s[0] == '\n' then 0
    else
      assert '\n' in s[1..] by {
        var k :| 0 <= k < |s| && s[k] == '\n';
        assert s[1..][k - 1] == '\n';
      }
      var j := FirstNewline(s[1..]);
      assert s[..j + 1] == [s[0]] + s[1..][..j];
      j + 1
  }

  /** Removes one carriage return ending a line that a line feed ended. */
  function StripCarriageReturn(line: string): string {
    if line != [] && line[|line| - 1] == '\r' then line[..|line| - 1] else line
  }

  /** Rust's `str::lines`: the text is cut after every line feed; each line
      loses its `\n` or `\r\n` terminator; a final empty segment after a
      trailing line feed is not a line. A carriage return that no line feed
      follows stays in its line. */
  function Lines(s: string): seq<string>
    decreases |s|
  {
    if s == [] then []
    else if '\n' !in s then [s]
    else
      var i := FirstNewline(s);
      [StripCarriageReturn(s[..i])] + Lines(s[i + 1..])
  }

  /** Number of line feeds in `s`. */
  function NewlineCount(s: string): nat
    decreases |s|
  {
    if s == [] then 0 else (if s[0] == '\n' then 1 else 0) + NewlineCount(s[1..])
  }

  lemma {:induction false} NewlineCountAppend(a: string, b: string)
    ensures NewlineCount(a + b) == NewlineCount(a) + NewlineCount(b)
    decreases |a|
  {
    if a == [] {
      assert a + b == b;
    } else {
      assert (a + b)[1..] == a[1..] + b;
      NewlineCountAppend(a[1..], b);
    }
  }

  lemma {:induction false} NewlineCountZero(s: string)
    ensures NewlineCount(s) == 0 <==> '\n' !in s
    decreases |s|
  {
    if s != [] {
      NewlineCountZero(s[1..]);
      assert s == [s[0]] + s[1..];
    }
  }

  /** The number of lines is the number of line feeds, plus one when the
      text does not end with a line feed (and is not empty). */
  lemma {:induction false} LineCount(s: string)
    ensures |Lines(s)| == NewlineCount(s) + (if s != [] && s[|s| - 1] != '\n' then 1 else 0)
    decreases |s|
  {
    if s == [] {
    } else if '\n' !in s {
      NewlineCountZero(s);
    } else {
      var i := FirstNewline(s);
      var rest := s[i + 1..];
      LineCount(rest);
      NewlineCountAtFirst(s);
      if rest != [] {
        assert s[|s| - 1] == rest[|rest| - 1];
      }
    }
  }

  /** The first line feed accounts for one of the line feeds of `s`; the
      others follow it. */
  lemma NewlineCountAtFirst(s: string)
    requires '\n' in s
    ensures NewlineCount(s) == 1 + NewlineCount(s[FirstNewline(s) + 1..])
  {
    var i := FirstNewline(s);
    var rest := s[i + 1..];
    assert s == s[..i] + [s[i]] + rest;
    NewlineCountAppend(s[..i] + [s[i]], rest);
    NewlineCountAppend(s[..i], [s[i]]);
    NewlineCountZero(s[..i]);
    assert NewlineCount([s[i]]) == 1;
  }

  /** `s` holds exactly one line iff it is not empty and its only line
      feed, if any, is its last character. */
  lemma OneLine(s: string)
    ensures |Lines(s)| == 1 <==> s != [] && '\n' !in s[..|s| - 1]
  {
    LineCount(s);
    if s != [] {
      var n := |s| - 1;
      assert s == s[..n] + [s[n]];
      NewlineCountAppend(s[..n], [s[n]]);
      NewlineCountZero(s[..n]);
      if s[n] == '\n' {
        assert NewlineCount([s[n]]) == 1;
      } else {
        assert NewlineCount([s[n]]) == 0;
      }
    }
  }

  /** Trimmed text holds exactly one line iff it is not empty and contains
      no line feed at all. */
  lemma TrimmedOneLine(s: string)
    ensures IsTrimmed(s) ==> (|Lines(s)| == 1 <==> s != [] && '\n' !in s)
  {
    OneLine(s);
    if s != [] {
      assert s == s[..|s| - 1] + [s[|s| - 1]];
    }
  }

  /** A line that `Lines` returns unchanged when it is terminated by `\n`. */
  predicate IsPlainLine(line: string) {
    '\n' !in line && (line == [] || line[|line| - 1] != '\r')
  }

  /** Each line followed by a line feed: the inverse of `Lines`. */
  function JoinLines(ls: seq<string>): string
    decreases |ls|
  {
    if ls == [] then [] else ls[0] + "\n" + JoinLines(ls[1..])
  }

  /** A plain line and its line feed in front of more text is the first
      line of the result. */
  lemma LinesCons(l: string, rest: string)
    requires IsPlainLine(l)
    ensures Lines(l + "\n" + rest) == [l] + Lines(rest)
  {
    var s := l + "\n" + rest;
    assert s[|l|] == '\n';
    var i := FirstNewline(s);
    assert i == |l| by {
      assert forall k :: 0 <= k < |l| ==> s[k] == l[k];
      assert forall k :: 0 <= k < i ==> s[..i][k] == s[k];
    }
    assert s[..i] == l;
    assert s[i + 1..] == rest;
  }

  /** Splitting plain lines, each followed by a line feed, and then more
      text gives the lines back, then the lines of that text. */
  lemma {:induction false} LinesOfJoinLinesThen(ls: seq<string>, tail: string)
    requires forall k :: 0 <= k < |ls| ==> IsPlainLine(ls[k])
    ensures Lines(JoinLines(ls) + tail) == ls + Lines(tail)
    decreases |ls|
  {
    if ls == [] {
      assert JoinLines(ls) + tail == tail;
    } else {
      var rest := JoinLines(ls[1..]) + tail;
      assert JoinLines(ls) + tail == ls[0] + "\n" + rest;
      LinesCons(ls[0], rest);
      LinesOfJoinLinesThen(ls[1..], tail);
      ConsAppend(ls, Lines(tail));
    }
  }

  lemma ConsAppend<T>(xs: seq<T>, ys: seq<T>)
    requires xs != []
    ensures [xs[0]] + (xs[1..] + ys) == xs + ys
  {
    assert xs == [xs[0]] + xs[1..];
  }

  /** Splitting joined plain lines gives the lines back. */
  lemma LinesOfJoinLines(ls: seq<string>)
    requires forall k :: 0 <= k < |ls| ==> IsPlainLine(ls[k])
    ensures Lines(JoinLines(ls)) == ls
  {
    LinesOfJoinLinesThen(ls, []);
    assert JoinLines(ls) + [] == JoinLines(ls);
  }

  /** The final line feed is optional: plain lines joined with line feeds
      but without one at the end split into the same lines. */
  lemma LinesOfJoinLinesUnterminated(ls: seq<string>, last: string)
    requires forall k :: 0 <= k < |ls| ==> IsPlainLine(ls[k])
    requires last != [] && '\n' !in last
    ensures Lines(JoinLines(ls) + last) == ls + [last]
  {
    LinesOfJoinLinesThen(ls, last);
  }
}
