/**
  The two line markers of a `pytest --collect-only` listing, recognised the
  way `re.compile(r'<Module\s+(.*)>').search(line)` and its `Function`
  twin recognise them: the leftmost `<Tag` followed by at least one
  whitespace character, then a greedy `(.*)` that runs up to the last `>`
  before the next "\n".  Only these two fixed shapes are modelled, not
  regular expressions in general.
 */
module Markers {
  import opened Text
  import opened Wrappers

  const ModuleTag: string := "Module"
  const FunctionTag: string := "Function"

  /** What one listing line declares. */
  datatype LineKind = ModuleLine(path: string) | FunctionLine(name: string) | Other

  /** End of the run of `\s` characters that starts at `i` (`\s+` is greedy). */
  function SkipSpace(s: string, i: nat): (j: nat)
    requires i <= |s|
    ensures i <= j <= |s|
    ensures forall m :: i <= m < j ==> IsSpace(s[m])
    ensures j < |s| ==> !IsSpace(s[j])
    decreases |s| - i
  {
    if i == |s| || !IsSpace(s[i]) then i else SkipSpace(s, i + 1)
  }

  /** The last `>` in `s[j..e]`, where a greedy `(.*)>` stops. */
  function LastGt(s: string, j: nat, e: nat): (g: Option<nat>)
    requires j <= e <= |s|
    ensures g.Some? ==> j <= g.value < e && s[g.value] == '>'
    ensures g.Some? ==> forall m :: g.value < m < e ==> s[m] != '>'
    ensures g.None? ==> forall m :: j <= m < e ==> s[m] != '>'
    decreases e - j
  {
    if e == j then None
    else if s[e - 1] == '>' then Some(e - 1)
    else LastGt(s, j, e - 1)
  }

  /** `s` holds `<`, the tag and one whitespace character at position `i`. */
  predicate OpensAt(s: string, i: nat, tag: string) {
    i + |tag| + 2 <= |s| && s[i] == '<' && s[i + 1..i + 1 + |tag|] == tag && IsSpace(s[i + 1 + |tag|])
  }

  /**
    The group captured by `<Tag\s+(.*)>` when the match starts at `i`.  Giving
    `\s+` fewer characters than its maximal run never helps: `(.*)` would then
    start on whitespace and meet no `>` the maximal run did not already see.
   */
  function MatchAt(s: string, i: nat, tag: string): (r: Option<string>)
    requires i <= |s|
    ensures r.Some? ==> OpensAt(s, i, tag) && '\n' !in r.value
  {
    if OpensAt(s, i, tag) then
      var j := SkipSpace(s, i + 1 + |tag|);
      var e := IndexFrom(s, j, '\n');  // `.` stops at the next newline
      match LastGt(s, j, e)
      case Some(g) =>
        assert forall m :: 0 <= m < |s[j..g]| ==> s[j..g][m] == s[j + m];
        Some(s[j..g])
      case None => None
    else None
  }

  /** `search`: the first position, from `i` on, where the pattern matches. */
  function SearchFrom(s: string, i: nat, tag: string): Option<string>
    requires i <= |s|
    decreases |s| - i
  {
    if i == |s| then None
    else
      match MatchAt(s, i, tag)
      case Some(g) => Some(g)
      case None => SearchFrom(s, i + 1, tag)
  }

  /** `pattern.search(line)`: the group of the leftmost match, if any. */
  function Search(s: string, tag: string): Option<string> {
    SearchFrom(s, 0, tag)
  }

  /** A line is a module line if the module pattern matches; only otherwise is the function pattern tried. */
  function Classify(line: string): LineKind {
    match Search(line, ModuleTag)
    case Some(m) => ModuleLine(m)
    case None =>
      match Search(line, FunctionTag)
      case Some(f) => FunctionLine(f)
      case None => Other
  }

  /** The search passes over positions that hold no `<`. */
  lemma {:induction false} SearchSkips(s: string, i: nat, k: nat, tag: string)
    requires i <= k <= |s|
    requires forall m :: i <= m < k ==> s[m] != '<'
    ensures SearchFrom(s, i, tag) == SearchFrom(s, k, tag)
    decreases k - i
  {
    if i < k {
      SearchSkips(s, i + 1, k, tag);
    }
  }

  /** A line without `<` is not a marker line. */
  lemma NoMarker(line: string, tag: string)
    requires '<' !in line
    ensures Search(line, tag) == None
  {
    SearchSkips(line, 0, |line|, tag);
  }

  /**
    The line `p + "<Tag " + x + ">" + q` yields `x` back, whatever precedes
    the marker (provided it holds no `<`) and whatever follows it on the line
    (provided it holds no `>`): the marker may sit anywhere in the line.  `x`
    keeps any `>` it contains, since the capture runs to the last one.
   */
  lemma MarkerRoundTrip(p: string, tag: string, x: string, q: string)
    requires '<' !in p
    requires '\n' !in x
    requires x == [] || !IsSpace(x[0])
    requires '>' !in q && '\n' !in q
    ensures Search(p + "<" + tag + " " + x + ">" + q, tag) == Some(x)
  {
    var mk := "<" + tag + " " + x + ">" + q;
    var s := p + mk;
    assert s == p + "<" + tag + " " + x + ">" + q;
    var i := |p|;
    assert forall m :: 0 <= m < i ==> s[m] == p[m] && p[m] in p;
    SearchSkips(s, 0, i, tag);
    assert s[i..] == mk;
    MatchAtMarker(s, i, tag, x, q);
  }

  lemma MatchAtMarker(s: string, i: nat, tag: string, x: string, q: string)
    requires i <= |s| && s[i..] == "<" + tag + " " + x + ">" + q
    requires '\n' !in x
    requires x == [] || !IsSpace(x[0])
    requires '>' !in q && '\n' !in q
    ensures MatchAt(s, i, tag) == Some(x)
  {
    MarkerOpens(s, i, tag, x, q);
    MarkerBody(s, i + 2 + |tag|, x, q);
  }

  /** The opening `<Tag ` of a marker: the pattern starts there and `\s+` takes the one space. */
  lemma MarkerOpens(s: string, i: nat, tag: string, x: string, q: string)
    requires i <= |s| && s[i..] == "<" + tag + " " + x + ">" + q
    requires x == [] || !IsSpace(x[0])
    ensures OpensAt(s, i, tag)
    ensures SkipSpace(s, i + 1 + |tag|) == i + 2 + |tag|
    ensures s[i + 2 + |tag|..] == x + ">" + q
  {
    var mk := "<" + tag + " " + x + ">" + q;
    var j := i + 2 + |tag|;
    assert |s| == j + |x| + 1 + |q|;
    assert OpensAt(s, i, tag) by {
      assert mk[1..1 + |tag|] == tag;
      assert s[i + 1..i + 1 + |tag|] == mk[1..1 + |tag|];
    }
    assert s[j..] == x + ">" + q by {
      assert mk[2 + |tag|..] == x + ">" + q;
    }
    assert s[i + 1 + |tag|] == mk[1 + |tag|] == ' ';
    assert s[j] == (x + ">" + q)[0];
  }

  /**
    After the opening, `(.*)` runs to the end of the line and gives back up
    to the last `>`, the marker's own, so it captures `x`.
   */
  lemma MarkerBody(s: string, j: nat, x: string, q: string)
    requires j <= |s| && s[j..] == x + ">" + q
    requires '\n' !in x
    requires '>' !in q && '\n' !in q
    ensures IndexFrom(s, j, '\n') == |s|
    ensures LastGt(s, j, |s|) == Some(j + |x|)
    ensures s[j..j + |x|] == x
  {
    var t := x + ">" + q;
    assert |s| == j + |t|;
    forall m | j <= m < |s| ensures s[m] != '\n' {
      assert s[m] == t[m - j];
      if m - j < |x| {
        assert t[m - j] == x[m - j] && x[m - j] in x;
      } else if m - j > |x| {
        assert t[m - j] == q[m - j - |x| - 1] && q[m - j - |x| - 1] in q;
      }
    }
    NewlineFreeToEnd(s, j);
    assert s[j + |x|] == t[|x|] == '>';
    forall m | j + |x| < m < |s| ensures s[m] != '>' {
      assert s[m] == t[m - j] == q[m - j - |x| - 1] && q[m - j - |x| - 1] in q;
    }
    LastGtIs(s, j, |s|, j + |x|);
    assert s[j..j + |x|] == t[..|x|] == x;
  }

  /** `LastGt` finds the last `>`: one with none after it before `e`. */
  lemma {:induction false} LastGtIs(s: string, j: nat, e: nat, g: nat)
    requires j <= g < e <= |s| && s[g] == '>'
    requires forall m :: g < m < e ==> s[m] != '>'
    ensures LastGt(s, j, e) == Some(g)
    decreases e
  {
    if e - 1 != g {
      LastGtIs(s, j, e - 1, g);
    }
  }

  lemma NewlineFreeToEnd(s: string, j: nat)
    requires j <= |s|
    requires forall m :: j <= m < |s| ==> s[m] != '\n'
    ensures IndexFrom(s, j, '\n') == |s|
  {
  }

  /**
    A module marker makes a module line when nothing before it holds `<`, its
    path does not start with whitespace and nothing after it holds `>`.
   */
  lemma ModuleLineRoundTrip(p: string, x: string, q: string)
    requires '<' !in p && '\n' !in x && (x == [] || !IsSpace(x[0]))
    requires '>' !in q && '\n' !in q
    ensures Classify(p + "<Module " + x + ">" + q) == ModuleLine(x)
  {
    MarkerRoundTrip(p, ModuleTag, x, q);
    assert p + "<Module " + x + ">" + q == p + "<" + ModuleTag + " " + x + ">" + q;
  }

  /**
    A function marker makes a function line when nothing before it holds
    `<`, its name holds no `<` and does not start with whitespace, and
    nothing after it holds `<` or `>`, so no module marker is on the line.
   */
  lemma FunctionLineRoundTrip(p: string, x: string, q: string)
    requires '<' !in p && '<' !in x && '\n' !in x && (x == [] || !IsSpace(x[0]))
    requires '<' !in q && '>' !in q && '\n' !in q
    ensures Classify(p + "<Function " + x + ">" + q) == FunctionLine(x)
  {
    FunctionLineHasNoModule(p, x, q);
    MarkerRoundTrip(p, FunctionTag, x, q);
    assert p + "<Function " + x + ">" + q == p + "<" + FunctionTag + " " + x + ">" + q;
  }

  /** A line holding only the function marker's `<` is not a module line. */
  lemma FunctionLineHasNoModule(p: string, x: string, q: string)
    requires '<' !in p && '<' !in x && '<' !in q
    ensures Search(p + "<Function " + x + ">" + q, ModuleTag) == None
  {
    var s := p + "<Function " + x + ">" + q;
    var i := |p|;
    assert forall m :: 0 <= m < i ==> s[m] == p[m] && p[m] in p;
    SearchSkips(s, 0, i, ModuleTag);
    assert s[i..] == "<Function " + x + ">" + q;
    NoModuleInFunctionMarker(s, i, x, q);
  }

  /** From a function marker on, the module pattern finds nothing. */
  lemma NoModuleInFunctionMarker(s: string, i: nat, x: string, q: string)
    requires i <= |s| && s[i..] == "<Function " + x + ">" + q
    requires '<' !in x && '<' !in q
    ensures SearchFrom(s, i, ModuleTag) == None
  {
    var t := "<Function " + x + ">" + q;
    assert |s| == i + 10 + |x| + 1 + |q|;
    forall m | i < m < |s| ensures s[m] != '<' {
      assert s[m] == t[m - i];
      if 10 <= m - i < 10 + |x| {
        assert t[m - i] == x[m - i - 10] && x[m - i - 10] in x;
      } else if m - i > 10 + |x| {
        assert t[m - i] == q[m - i - 11 - |x|] && q[m - i - 11 - |x|] in q;
      }
    }
    assert s[i + 1] == t[1] == 'F';
    assert s[i + 1..i + 7][0] != ModuleTag[0];
    assert !OpensAt(s, i, ModuleTag);
    SearchSkips(s, i + 1, |s|, ModuleTag);
  }

}
