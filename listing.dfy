/**
  The first half of `TestDir.from_pytest_output`: the scan of the listing's
  lines into `module_info`, an insertion-ordered dictionary from module path
  to the names of its test functions, while `current_module` tracks the most
  recent module line.
 */
module Listing {
  import opened Wrappers
  import opened Text
  import opened Markers

  /**
    `module_info`: the module paths in the dictionary's insertion order, and
    the function names recorded for each.
   */
  datatype ModuleInfo = ModuleInfo(modules: seq<string>, functions: map<string, seq<string>>)

  /** The loop's state: `module_info` and `current_module`. */
  datatype ScanState = ScanState(info: ModuleInfo, current: Option<string>)

  const Start := ScanState(ModuleInfo([], map[]), None)

  predicate Distinct(s: seq<string>) {
    forall a, b :: 0 <= a < b < |s| ==> s[a] != s[b]
  }

  /**
    A module line (re)binds its path to an empty list and becomes current;
    reassigning a key of a Python dictionary keeps the key's position.  A
    function line extends the current module's list, if there is one.
   */
  function Step(st: ScanState, kind: LineKind): ScanState {
    var info := st.info;
    match kind
    case ModuleLine(m) =>
      var modules := if m in info.functions then info.modules else info.modules + [m];
      ScanState(ModuleInfo(modules, info.functions[m := []]), Some(m))
    case FunctionLine(f) =>
      if st.current.Some? && st.current.value in info.functions then
        var c := st.current.value;
        ScanState(ModuleInfo(info.modules, info.functions[c := info.functions[c] + [f]]), st.current)
      else st
    case Other => st
  }

  /** Each line's kind, in order. */
  function Kinds(lines: seq<string>): (ks: seq<LineKind>)
    ensures |ks| == |lines|
    ensures forall k :: 0 <= k < |lines| ==> ks[k] == Classify(lines[k])
  {
    seq(|lines|, k requires 0 <= k < |lines| => Classify(lines[k]))
  }

  /** The state after scanning lines of kinds `ks` in order. */
  function Collect(ks: seq<LineKind>): ScanState {
    if ks == [] then Start else Step(Collect(ks[..|ks| - 1]), ks[|ks| - 1])
  }

  /** The scanning loop of `from_pytest_output`. */
  method ScanListing(output: string) returns (info: ModuleInfo)
    ensures info == Collect(Kinds(SplitLines(output))).info
  {
    var lines := SplitLines(output);
    var moduleInfo := ModuleInfo([], map[]);
    var currentModule: Option<string> := None;
    var i := 0;
    while i < |lines|
      invariant 0 <= i <= |lines|
      invariant ScanState(moduleInfo, currentModule) == Collect(Kinds(lines)[..i])
      invariant currentModule.Some? ==> currentModule.value in moduleInfo.functions
    {
      var line := lines[i];
      assert Kinds(lines)[..i + 1][..i] == Kinds(lines)[..i];
      match Search(line, ModuleTag) {
        case Some(m) =>
          currentModule := Some(m);
          if m !in moduleInfo.functions {
            moduleInfo := moduleInfo.(modules := moduleInfo.modules + [m]);
          }
          moduleInfo := moduleInfo.(functions := moduleInfo.functions[m := []]);
        case None =>
          match Search(line, FunctionTag) {
            case Some(f) =>
              if currentModule.Some? {
                var c := currentModule.value;
                moduleInfo := moduleInfo.(functions := moduleInfo.functions[c := moduleInfo.functions[c] + [f]]);
              }
            case None =>
          }
      }
      i := i + 1;
      CollectModules(Kinds(lines)[..i]);
    }
    assert Kinds(lines)[..i] == Kinds(lines);
    info := moduleInfo;
  }

  // ---------------------------------------------------------------------
  // Reference definitions the scan is measured against

  /** The paths of the module lines, in listing order, repeats included. */
  function ModulePaths(ks: seq<LineKind>): seq<string> {
    if ks == [] then []
    else
      var last := ks[|ks| - 1];
      ModulePaths(ks[..|ks| - 1]) + (if last.ModuleLine? then [last.path] else [])
  }

  /** The first occurrence of each element, in order. */
  function Dedup(s: seq<string>): seq<string> {
    if s == [] then []
    else
      var d := Dedup(s[..|s| - 1]);
      if s[|s| - 1] in d then d else d + [s[|s| - 1]]
  }

  /** The names of the function lines, in listing order. */
  function FunctionNames(ks: seq<LineKind>): seq<string> {
    if ks == [] then []
    else
      var last := ks[|ks| - 1];
      FunctionNames(ks[..|ks| - 1]) + (if last.FunctionLine? then [last.name] else [])
  }

  /** The path of the last module line, if any. */
  function LastModule(ks: seq<LineKind>): Option<string> {
    if ks == [] then None
    else
      var last := ks[|ks| - 1];
      if last.ModuleLine? then Some(last.path) else LastModule(ks[..|ks| - 1])
  }

  /** Index of the first module line of `lines`, or `|lines|`: where a module's block of lines ends. */
  function BlockEnd(ks: seq<LineKind>, i: nat): (k: nat)
    requires i <= |ks|
    ensures i <= k <= |ks|
    ensures forall m :: i <= m < k ==> !ks[m].ModuleLine?
    ensures k < |ks| ==> ks[k].ModuleLine?
    decreases |ks| - i
  {
    if i == |ks| || ks[i].ModuleLine? then i else BlockEnd(ks, i + 1)
  }

  // ---------------------------------------------------------------------
  // What the scan computes

  lemma DedupFacts(s: seq<string>)
    ensures Distinct(Dedup(s))
    ensures forall x :: x in Dedup(s) <==> x in s
    ensures Dedup(s) == [] <==> s == []
  {
    if s != [] {
      DedupFacts(s[..|s| - 1]);
      assert s == s[..|s| - 1] + [s[|s| - 1]];
    }
  }

  /**
    The modules of `module_info` are the module lines' paths in first-seen
    order: a module listed again keeps its place, and a listing without
    module lines leaves the dictionary empty.  `current_module` is the path
    of the last module line.
   */
  lemma CollectModules(lines: seq<LineKind>)
    ensures Collect(lines).info.modules == Dedup(ModulePaths(lines))
    ensures Collect(lines).info.functions.Keys == set m | m in ModulePaths(lines)
    ensures Collect(lines).current == LastModule(lines)
    ensures LastModule(lines).Some? ==> LastModule(lines).value in ModulePaths(lines)
  {
    CollectKeys(lines);
    CollectCurrent(lines);
  }

  lemma {:induction false} CollectKeys(lines: seq<LineKind>)
    ensures Collect(lines).info.modules == Dedup(ModulePaths(lines))
    ensures Collect(lines).info.functions.Keys == set m | m in ModulePaths(lines)
    decreases |lines|
  {
    if lines != [] {
      var prefix := lines[..|lines| - 1];
      var last := lines[|lines| - 1];
      CollectKeys(prefix);
      DedupFacts(ModulePaths(prefix));
      var mp := ModulePaths(prefix);
      if last.ModuleLine? {
        var m := last.path;
        assert ModulePaths(lines) == mp + [m];
        assert (mp + [m])[..|mp|] == mp;
        assert Dedup(ModulePaths(lines)) == if m in Dedup(mp) then Dedup(mp) else Dedup(mp) + [m];
      } else {
        assert ModulePaths(lines) == mp;
      }
    }
  }

  lemma {:induction false} CollectCurrent(lines: seq<LineKind>)
    ensures Collect(lines).current == LastModule(lines)
    ensures LastModule(lines).Some? ==> LastModule(lines).value in ModulePaths(lines)
    decreases |lines|
  {
    if lines != [] {
      var prefix := lines[..|lines| - 1];
      CollectCurrent(prefix);
      var mp := ModulePaths(prefix);
      assert mp <= ModulePaths(lines);
    }
  }

  /**
    Function lines that come before any module line are dropped: a prefix
    without module lines does not change what the rest of the listing yields.
   */
  lemma {:induction false} OrphanFunctionsDropped(pre: seq<LineKind>, rest: seq<LineKind>)
    requires forall k :: 0 <= k < |pre| ==> !pre[k].ModuleLine?
    ensures Collect(pre + rest) == Collect(rest)
    decreases |rest|
  {
    if rest == [] {
      assert pre + rest == pre;
      OrphansLeaveStart(pre);
    } else {
      var r' := rest[..|rest| - 1];
      OrphanFunctionsDropped(pre, r');
      assert (pre + rest)[..|pre + rest| - 1] == pre + r';
    }
  }

  lemma {:induction false} OrphansLeaveStart(pre: seq<LineKind>)
    requires forall k :: 0 <= k < |pre| ==> !pre[k].ModuleLine?
    ensures Collect(pre) == Start
    decreases |pre|
  {
    if pre != [] {
      OrphansLeaveStart(pre[..|pre| - 1]);
    }
  }

  /**
    The functions recorded for module `m` are the function lines of the block
    that follows the LAST module line for `m`, up to the next module line, in
    listing order; earlier blocks for `m` are discarded.
   */
  lemma {:induction false} FunctionsOfLastBlock(pre: seq<LineKind>, ml: LineKind, post: seq<LineKind>, m: string)
    requires ml == ModuleLine(m)
    requires forall k :: 0 <= k < |post| ==> post[k] != ModuleLine(m)
    ensures m in Collect(pre + [ml] + post).info.functions
    ensures Collect(pre + [ml] + post).info.functions[m] == FunctionNames(post[..BlockEnd(post, 0)])
    decreases |post|
  {
    var lines := pre + [ml] + post;
    if post == [] {
      assert lines[..|lines| - 1] == pre;
    } else {
      var p' := post[..|post| - 1];
      FunctionsOfLastBlock(pre, ml, p', m);
      assert lines[..|lines| - 1] == pre + [ml] + p';
      BlockStep(pre, ml, p', post[|post| - 1], m);
      assert p' + [post[|post| - 1]] == post;
    }
  }

  /** One more line after the block's start: the recorded list follows the block. */
  lemma BlockStep(pre: seq<LineKind>, ml: LineKind, p': seq<LineKind>, l: LineKind, m: string)
    requires ml == ModuleLine(m)
    requires forall k :: 0 <= k < |p'| ==> p'[k] != ModuleLine(m)
    requires l != ModuleLine(m)
    requires m in Collect(pre + [ml] + p').info.functions
    requires Collect(pre + [ml] + p').info.functions[m] == FunctionNames(p'[..BlockEnd(p', 0)])
    ensures m in Step(Collect(pre + [ml] + p'), l).info.functions
    ensures Step(Collect(pre + [ml] + p'), l).info.functions[m] == FunctionNames((p' + [l])[..BlockEnd(p' + [l], 0)])
  {
    var st := Collect(pre + [ml] + p');
    var e' := BlockEnd(p', 0);
    if e' < |p'| {
      CurrentAfterModule(pre + [ml], p', e');
      var j :| e' <= j < |p'| && p'[j] == ModuleLine(LastModule(pre + [ml] + p').value);
      CollectModules(pre + [ml] + p');
      BlockClosed(p', l, st, m);
    } else {
      CurrentInBlock(pre, ml, p', m);
      BlockOpen(p', l, st, m);
    }
  }

  lemma BlockClosed(p': seq<LineKind>, l: LineKind, st: ScanState, m: string)
    requires BlockEnd(p', 0) < |p'|
    requires l != ModuleLine(m) && st.current != Some(m)
    requires m in st.info.functions && st.info.functions[m] == FunctionNames(p'[..BlockEnd(p', 0)])
    ensures m in Step(st, l).info.functions
    ensures Step(st, l).info.functions[m] == FunctionNames((p' + [l])[..BlockEnd(p' + [l], 0)])
  {
    var post := p' + [l];
    var e' := BlockEnd(p', 0);
    assert forall k :: 0 <= k < |p'| ==> p'[k] == post[k];
    assert BlockEnd(post, 0) == e';
    assert post[..e'] == p'[..e'];
    StepElsewhere(st, l, m);
  }

  lemma BlockOpen(p': seq<LineKind>, l: LineKind, st: ScanState, m: string)
    requires BlockEnd(p', 0) == |p'|
    requires l != ModuleLine(m) && st.current == Some(m)
    requires m in st.info.functions && st.info.functions[m] == FunctionNames(p'[..BlockEnd(p', 0)])
    ensures m in Step(st, l).info.functions
    ensures Step(st, l).info.functions[m] == FunctionNames((p' + [l])[..BlockEnd(p' + [l], 0)])
  {
    var post := p' + [l];
    assert forall k :: 0 <= k < |p'| ==> p'[k] == post[k];
    assert p'[..|p'|] == p';
    if l.ModuleLine? {
      assert BlockEnd(post, 0) == |p'|;
      assert post[..|p'|] == p';
      StepElsewhere(st, l, m);
    } else {
      assert BlockEnd(post, 0) == |post|;
      assert post[..|post|] == post;
      assert post[..|post| - 1] == p';
    }
  }

  /** A line that neither opens `m` nor belongs to it leaves `m`'s list alone. */
  lemma StepElsewhere(st: ScanState, l: LineKind, m: string)
    requires m in st.info.functions
    requires l != ModuleLine(m)
    requires l.FunctionLine? ==> st.current != Some(m)
    ensures m in Step(st, l).info.functions
    ensures Step(st, l).info.functions[m] == st.info.functions[m]
  {
  }

  /** Inside the block after module line `ml`, the current module is `m`. */
  lemma {:induction false} CurrentInBlock(pre: seq<LineKind>, ml: LineKind, block: seq<LineKind>, m: string)
    requires ml == ModuleLine(m)
    requires forall k :: 0 <= k < |block| ==> !block[k].ModuleLine?
    ensures LastModule(pre + [ml] + block) == Some(m)
    ensures Collect(pre + [ml] + block).current == Some(m)
    decreases |block|
  {
    var lines := pre + [ml] + block;
    CollectModules(lines);
    if block == [] {
      assert lines[..|lines| - 1] == pre;
    } else {
      CurrentInBlock(pre, ml, block[..|block| - 1], m);
      assert lines[..|lines| - 1] == pre + [ml] + block[..|block| - 1];
    }
  }

  /** Once `post` has a module line at `e`, the current module is that of a later module line. */
  lemma {:induction false} CurrentAfterModule(pre: seq<LineKind>, post: seq<LineKind>, e: nat)
    requires e < |post| && post[e].ModuleLine?
    ensures LastModule(pre + post).Some?
    ensures exists k :: e <= k < |post| && post[k] == ModuleLine(LastModule(pre + post).value)
    decreases |post|
  {
    var lines := pre + post;
    var k := |post| - 1;
    assert lines[|lines| - 1] == post[k];
    if post[k].ModuleLine? {
      assert post[k] == ModuleLine(LastModule(lines).value);
    } else {
      var p' := post[..k];
      assert lines[..|lines| - 1] == pre + p';
      CurrentAfterModule(pre, p', e);
      var j :| e <= j < |p'| && p'[j] == ModuleLine(LastModule(pre + p').value);
      assert p'[j] == post[j];
    }
  }
}
