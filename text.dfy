/**
  Python string primitives the listing parser relies on: `str.splitlines()`,
  `str.split("/")` and the whitespace class `\s` of a `str` regular
  expression.  Strings are sequences of Unicode scalar values.
 */
module Text {

  /** The characters `str.splitlines()` treats as line boundaries. */
  predicate IsLineBreak(c: char) {
    c == '\n' || c == '\r' || c == '\U{0B}' || c == '\U{0C}' ||
    c == '\U{1C}' || c == '\U{1D}' || c == '\U{1E}' ||
    c == '\U{85}' || c == '\U{2028}' || c == '\U{2029}'
  }

  /** The characters matched by `\s` in a `str` pattern (those for which `str.isspace()` holds). */
  predicate IsSpace(c: char) {
    c == ' ' || c == '\t' || c == '\n' || c == '\r' || c == '\U{0B}' || c == '\U{0C}' ||
    c == '\U{1C}' || c == '\U{1D}' || c == '\U{1E}' || c == '\U{1F}' ||
    c == '\U{85}' || c == '\U{A0}' || c == '\U{1680}' ||
    ('\U{2000}' <= c <= '\U{200A}') ||
    c == '\U{2028}' || c == '\U{2029}' || c == '\U{202F}' || c == '\U{205F}' || c == '\U{3000}'
  }

  predicate NoBreaks(s: string) {
    forall k :: 0 <= k < |s| ==> !IsLineBreak(s[k])
  }

  /** Index of the first line boundary at or after `i`, or `|s|` when there is none. */
  function FirstBreak(s: string, i: nat): (k: nat)
    requires i <= |s|
    ensures i <= k <= |s|
    ensures forall m :: i <= m < k ==> !IsLineBreak(s[m])
    ensures k < |s| ==> IsLineBreak(s[k])
    decreases |s| - i
  {
    if i == |s| || IsLineBreak(s[i]) then i else FirstBreak(s, i + 1)
  }

  /** A boundary is one character, except "\r\n", which counts as one boundary of two. */
  function BreakWidth(s: string, k: nat): nat
    requires k < |s|
  {
    if s[k] == '\r' && k + 1 < |s| && s[k + 1] == '\n' then 2 else 1
  }

  /**
    `str.splitlines()`: the lines of `s` without their boundaries; a boundary
    at the very end does not open an empty last line, and "" has no lines.
   */
  function SplitLines(s: string): (lines: seq<string>)
    ensures forall k :: 0 <= k < |lines| ==> NoBreaks(lines[k])
    ensures s == [] <==> lines == []
    decreases |s|
  {
    if s == [] then []
    else
      var k := FirstBreak(s, 0);
      if k == |s| then [s]
      else [s[..k]] + SplitLines(s[k + BreakWidth(s, k)..])
  }

  /** The line ends a listing is written with: "\n", or "\r\n" on Windows. */
  predicate LineEnding(eol: string) {
    eol == "\n" || eol == "\r\n"
  }

  /** Each line followed by the line end `eol`: the text a line-oriented tool writes. */
  function Terminated(lines: seq<string>, eol: string): string {
    if lines == [] then [] else lines[0] + eol + Terminated(lines[1..], eol)
  }

  /**
    Splitting lines that each end in "\n", or each in "\r\n", gives the lines
    back, followed by a last unterminated line if there is one.  An empty last
    line is no line, so a final line end does not add an empty line.
   */
  lemma {:induction false} SplitLinesOfText(lines: seq<string>, eol: string, last: string)
    requires forall k :: 0 <= k < |lines| ==> NoBreaks(lines[k])
    requires NoBreaks(last) && LineEnding(eol)
    ensures SplitLines(Terminated(lines, eol) + last) == lines + (if last == [] then [] else [last])
    decreases |lines|
  {
    var tail := if last == [] then [] else [last];
    if lines == [] {
      assert Terminated(lines, eol) + last == last;
      if last != [] {
        SplitLinesSingle(last);
      }
    } else {
      var rest := Terminated(lines[1..], eol) + last;
      SplitLinesOfText(lines[1..], eol, last);
      TerminatedThen(lines, eol, last);
      SplitLinesCons(lines[0], eol, rest);
      ConsAppend(lines, tail);
    }
  }

  lemma ConsAppend(lines: seq<string>, tail: seq<string>)
    requires lines != []
    ensures [lines[0]] + (lines[1..] + tail) == lines + tail
  {
    assert lines == [lines[0]] + lines[1..];
  }

  lemma TerminatedThen(lines: seq<string>, eol: string, last: string)
    requires lines != []
    ensures Terminated(lines, eol) + last == lines[0] + eol + (Terminated(lines[1..], eol) + last)
  {
  }

  /** A non-empty text without boundaries is one line. */
  lemma SplitLinesSingle(l: string)
    requires NoBreaks(l) && l != []
    ensures SplitLines(l) == [l]
  {
    assert FirstBreak(l, 0) == |l|;
  }

  /** A first line ended by "\n" or by "\r\n" is split off whole, its line end dropped. */
  lemma SplitLinesCons(l: string, eol: string, rest: string)
    requires NoBreaks(l) && LineEnding(eol)
    ensures SplitLines(l + eol + rest) == [l] + SplitLines(rest)
  {
    var s := l + eol + rest;
    assert s[|l|] == eol[0];
    assert forall m :: 0 <= m < |l| ==> s[m] == l[m];
    assert FirstBreak(s, 0) == |l|;
    if eol == "\r\n" {
      assert s[|l| + 1] == '\n';
    }
    assert BreakWidth(s, |l|) == |eol|;
    assert s[..|l|] == l;
    assert s[|l| + |eol|..] == rest;
  }

  /** Index of the first `c` at or after `i`, or `|s|` when there is none. */
  function IndexFrom(s: string, i: nat, c: char): (k: nat)
    requires i <= |s|
    ensures i <= k <= |s|
    ensures forall m :: i <= m < k ==> s[m] != c
    ensures k < |s| ==> s[k] == c
    decreases |s| - i
  {
    if i == |s| || s[i] == c then i else IndexFrom(s, i + 1, c)
  }

  /** `str.split("/")`: the segments between slashes, at least one, possibly empty. */
  function SplitSlash(s: string): (parts: seq<string>)
    ensures |parts| >= 1
    ensures forall k :: 0 <= k < |parts| ==> '/' !in parts[k]
    decreases |s|
  {
    var k := IndexFrom(s, 0, '/');
    assert forall m :: 0 <= m < |s[..k]| ==> s[..k][m] != '/';
    if k == |s| then [s] else [s[..k]] + SplitSlash(s[k + 1..])
  }

  /** `"/".join(parts)`, built from the back as a path grows one segment at a time. */
  function JoinSlash(parts: seq<string>): string
    requires |parts| >= 1
  {
    if |parts| == 1 then parts[0]
    else JoinSlash(parts[..|parts| - 1]) + "/" + parts[|parts| - 1]
  }

  lemma {:induction false} JoinSlashCons(a: string, t: seq<string>)
    requires |t| >= 1
    ensures JoinSlash([a] + t) == a + "/" + JoinSlash(t)
    decreases |t|
  {
    if |t| > 1 {
      var u := [a] + t;
      assert u[..|u| - 1] == [a] + t[..|t| - 1];
      JoinSlashCons(a, t[..|t| - 1]);
    }
  }

  /** The join of two or more segments is the first segment, "/" and the join of the rest. */
  lemma JoinSlashHead(parts: seq<string>)
    requires |parts| >= 2
    ensures JoinSlash(parts) == parts[0] + "/" + JoinSlash(parts[1..])
  {
    assert parts == [parts[0]] + parts[1..];
    JoinSlashCons(parts[0], parts[1..]);
  }

  /** Joining the segments of a split gives the string back. */
  lemma {:induction false} JoinOfSplit(s: string)
    ensures JoinSlash(SplitSlash(s)) == s
    decreases |s|
  {
    var k := IndexFrom(s, 0, '/');
    if k < |s| {
      JoinOfSplit(s[k + 1..]);
      JoinSlashCons(s[..k], SplitSlash(s[k + 1..]));
      assert s == s[..k] + "/" + s[k + 1..];
    }
  }

  /** Splitting a join of slash-free segments gives the segments back. */
  lemma {:induction false} SplitOfJoin(parts: seq<string>)
    requires |parts| >= 1
    requires forall k :: 0 <= k < |parts| ==> '/' !in parts[k]
    ensures SplitSlash(JoinSlash(parts)) == parts
    decreases |parts|
  {
    var a := parts[0];
    if |parts| == 1 {
      NoSlashFound(a, "");
      assert a + "" == a;
    } else {
      var t := parts[1..];
      assert parts == [a] + t;
      JoinSlashCons(a, t);
      var s := a + "/" + JoinSlash(t);
      NoSlashFound(a, "/" + JoinSlash(t));
      assert s == a + ("/" + JoinSlash(t));
      assert s[..|a|] == a;
      assert s[|a| + 1..] == JoinSlash(t);
      SplitOfJoin(t);
      assert JoinSlash(parts) == s;
      assert SplitSlash(s) == [a] + SplitSlash(JoinSlash(t));
    }
  }

  lemma NoSlashFound(a: string, rest: string)
    requires '/' !in a
    requires rest == [] || rest[0] == '/'
    ensures IndexFrom(a + rest, 0, '/') == |a|
  {
    var s := a + rest;
    assert forall m :: 0 <= m < |a| ==> s[m] == a[m] && a[m] in a;
    assert |a| < |s| ==> s[|a|] == '/';
  }
}
