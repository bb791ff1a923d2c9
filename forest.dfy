/**
  What the constructors and builders of `TestDir` do to the whole population
  of objects, stated as functions from one state to the next.  A `Forest` is
  every `TestDir`/`Test` created so far together with the class-level
  `_dir_registry`, which maps a fully-qualified path to a directory and is
  never cleared, so it outlives a single parse.  The class `Registry.Hierarchy`
  performs these steps in place; these functions say what each step yields.
 */
module Forest {
  import opened Wrappers
  import opened Text
  import opened TestTree
  import Listing

  datatype Forest = Forest(nodes: seq<Node>, registry: map<string, nat>)

  /** Why `from_pytest_output` fails: with no module line, `root` is never bound. */
  datatype ParseError = RootUnbound

  /** Every registry entry names a directory whose fully-qualified path is its key. */
  predicate RegistryConsistent(nodes: seq<Node>, registry: map<string, nat>)
    requires ParentsBefore(nodes)
  {
    forall k :: k in registry ==>
      registry[k] < |nodes| && nodes[registry[k]].Dir? && PathStr(nodes, registry[k]) == k
  }

  predicate Valid(f: Forest) {
    WellFormed(f.nodes) && RegistryConsistent(f.nodes, f.registry)
  }

  /** `f'` is `f` after further construction that never rebinds a registry key. */
  predicate Grows(f: Forest, f': Forest) {
    && Extends(f.nodes, f'.nodes)
    && (forall k :: k in f.registry ==> k in f'.registry && f'.registry[k] == f.registry[k])
  }

  lemma GrowsTransitive(f: Forest, g: Forest, h: Forest)
    requires Grows(f, g) && Grows(g, h)
    ensures Grows(f, h)
  {
    forall i | 0 <= i < |f.nodes| && f.nodes[i].Dir?
      ensures f.nodes[i].children <= h.nodes[i].children
    {
      assert f.nodes[i].children <= g.nodes[i].children;
    }
  }

  lemma {:induction false} RegistryStable(nodes: seq<Node>, nodes': seq<Node>, registry: map<string, nat>)
    requires ParentsBefore(nodes) && ParentsBefore(nodes') && Extends(nodes, nodes')
    requires RegistryConsistent(nodes, registry)
    ensures RegistryConsistent(nodes', registry)
  {
    forall k | k in registry
      ensures PathStr(nodes', registry[k]) == k
    {
      PathsStable(nodes, nodes', registry[k]);
    }
  }

  /** A path without "/" is that of a top-level directory. */
  lemma SlashFreePathIsTopLevel(nodes: seq<Node>, i: nat)
    requires ParentsBefore(nodes) && i < |nodes| && nodes[i].Dir?
    requires '/' !in PathStr(nodes, i)
    ensures nodes[i].parent.None?
  {
  }

  // ---------------------------------------------------------------------
  // TestDir and Test construction

  /**
    `TestDir(name, parent)`: creates the directory, registers it under its
    fully-qualified path (replacing any earlier entry for that path), and
    appends it to the parent's children.
   */
  function NewDir(f: Forest, name: string, parent: Option<nat>): (r: (Forest, nat))
    requires Valid(f)
    requires parent.Some? ==> parent.value < |f.nodes| && f.nodes[parent.value].Dir?
    ensures Valid(r.0) && Extends(f.nodes, r.0.nodes)
    ensures r.1 == |f.nodes| && r.0.nodes == AddNode(f.nodes, Dir(name, parent, []))
    ensures r.0.nodes[r.1].Dir?
    ensures PathStr(r.0.nodes, r.1) == if parent.Some? then PathStr(f.nodes, parent.value) + "/" + name else name
    ensures r.0.registry == f.registry[PathStr(r.0.nodes, r.1) := r.1]
  {
    var n := Dir(name, parent, []);
    AddNodeKeepsShape(f.nodes, n);
    var nodes := AddNode(f.nodes, n);
    RegistryStable(f.nodes, nodes, f.registry);
    if parent.Some? then
      PathsStable(f.nodes, nodes, parent.value);
      (Forest(nodes, f.registry[PathStr(nodes, |f.nodes|) := |f.nodes|]), |f.nodes|)
    else
      (Forest(nodes, f.registry[PathStr(nodes, |f.nodes|) := |f.nodes|]), |f.nodes|)
  }

  /** The registry key `with_child(name)` looks up on directory `d`. */
  function ChildKey(f: Forest, d: nat, name: string): string
    requires Valid(f) && d < |f.nodes| && f.nodes[d].Dir?
  {
    PathStr(f.nodes, d) + "/" + name
  }

  /** `d.with_child(name)`: the registered directory at `path(d)/name`, created under `d` when there is none. */
  function WithChild(f: Forest, d: nat, name: string): (r: (Forest, nat))
    requires Valid(f) && d < |f.nodes| && f.nodes[d].Dir?
    ensures Valid(r.0) && Grows(f, r.0)
    ensures r.1 < |r.0.nodes| && r.0.nodes[r.1].Dir?
    ensures PathStr(r.0.nodes, d) == PathStr(f.nodes, d)
    ensures PathStr(r.0.nodes, r.1) == ChildKey(f, d, name)
    ensures ChildKey(f, d, name) in r.0.registry && r.0.registry[ChildKey(f, d, name)] == r.1
  {
    var key := ChildKey(f, d, name);
    if key in f.registry then (f, f.registry[key])
    else
      var r := NewDir(f, name, Some(d));
      PathsStable(f.nodes, r.0.nodes, d);
      r
  }

  /** `d.with_test(name)`: a new `Test` under `d`, appended to its children. */
  function WithTest(f: Forest, d: nat, name: string): (r: (Forest, nat))
    requires Valid(f) && d < |f.nodes| && f.nodes[d].Dir?
    ensures Valid(r.0) && Grows(f, r.0)
    ensures r.0.registry == f.registry
    ensures r.1 == |f.nodes| && r.0.nodes == AddNode(f.nodes, Test(name, d))
  {
    var n := Test(name, d);
    AddNodeKeepsShape(f.nodes, n);
    var nodes := AddNode(f.nodes, n);
    RegistryStable(f.nodes, nodes, f.registry);
    (Forest(nodes, f.registry), |f.nodes|)
  }

  /**
    `with_child` is a get-or-create: when `path(d)/name` is registered the
    state is left as it is and the registered directory returned; otherwise
    exactly one directory is created, appended after `d`'s earlier children
    and registered under that key alone.  Asking twice gives the same answer
    and changes nothing the second time.
   */
  lemma WithChildGetOrCreate(f: Forest, d: nat, name: string)
    requires Valid(f) && d < |f.nodes| && f.nodes[d].Dir?
    ensures var key := ChildKey(f, d, name);
      var r := WithChild(f, d, name);
      && (key in f.registry ==> r.0 == f && r.1 == f.registry[key])
      && (key !in f.registry ==>
            && r.1 == |f.nodes| && |r.0.nodes| == |f.nodes| + 1
            && r.0.nodes[r.1] == Dir(name, Some(d), [])
            && r.0.nodes[d].children == f.nodes[d].children + [r.1]
            && r.0.registry == f.registry[key := r.1])
    ensures var r := WithChild(f, d, name);
      WithChild(r.0, d, name) == r
  {
    var key := ChildKey(f, d, name);
    if key !in f.registry {
      AddNodeKeepsShape(f.nodes, Dir(name, Some(d), []));
    }
  }

  /** `with_test` always adds exactly one test, at the end of `d`'s tests, and touches no registry entry. */
  lemma WithTestAppends(f: Forest, d: nat, name: string, x: nat)
    requires Valid(f) && d < |f.nodes| && f.nodes[d].Dir?
    ensures var r := WithTest(f, d, name);
      && |r.0.nodes| == |f.nodes| + 1
      && r.0.nodes[r.1] == Test(name, d)
      && r.0.nodes[d].children == f.nodes[d].children + [r.1]
      && TestNames(r.0.nodes, x) == TestNames(f.nodes, x) + (if x == d then [name] else [])
  {
    AddNodeKeepsShape(f.nodes, Test(name, d));
    TestNamesAfterAdd(f.nodes, Test(name, d), x);
  }

  /** Finding or creating a directory adds no test anywhere. */
  lemma WithChildKeepsTests(f: Forest, d: nat, name: string, x: nat)
    requires Valid(f) && d < |f.nodes| && f.nodes[d].Dir?
    ensures TestNames(WithChild(f, d, name).0.nodes, x) == TestNames(f.nodes, x)
  {
    if ChildKey(f, d, name) !in f.registry {
      TestNamesAfterAdd(f.nodes, Dir(name, Some(d), []), x);
    }
  }

  // ---------------------------------------------------------------------
  // One module: its directory, its path, its tests

  /** The first segment's directory: the registered one, or a new top-level directory. */
  function RootDir(f: Forest, root: string): (r: (Forest, nat))
    requires Valid(f)
    ensures Valid(r.0) && Grows(f, r.0)
    ensures r.1 < |r.0.nodes| && r.0.nodes[r.1].Dir?
    ensures root in r.0.registry && r.0.registry[root] == r.1
  {
    if root !in f.registry then NewDir(f, root, None) else (f, f.registry[root])
  }

  lemma RootDirKeepsTests(f: Forest, root: string, x: nat)
    requires Valid(f)
    ensures TestNames(RootDir(f, root).0.nodes, x) == TestNames(f.nodes, x)
  {
    if root !in f.registry {
      TestNamesAfterAdd(f.nodes, Dir(root, None, []), x);
    }
  }

  /** `for part in parts: dir = dir.with_child(part)`. */
  function WalkFrom(f: Forest, d: nat, parts: seq<string>): (r: (Forest, nat))
    requires Valid(f) && d < |f.nodes| && f.nodes[d].Dir?
    ensures Valid(r.0) && Grows(f, r.0)
    ensures r.1 < |r.0.nodes| && r.0.nodes[r.1].Dir?
    decreases |parts|
  {
    if parts == [] then (f, d)
    else
      var g := WithChild(f, d, parts[0]);
      var r := WalkFrom(g.0, g.1, parts[1..]);
      GrowsTransitive(f, g.0, r.0);
      r
  }

  /**
    Walking `parts` down from `d` ends at a directory whose path is `d`'s
    path, "/" and the parts joined by "/", and which the registry holds under
    that path; walking no parts stays at `d`.
   */
  lemma {:induction false} WalkReachesPath(f: Forest, d: nat, parts: seq<string>)
    requires Valid(f) && d < |f.nodes| && f.nodes[d].Dir?
    ensures parts == [] ==> WalkFrom(f, d, parts) == (f, d)
    ensures var r := WalkFrom(f, d, parts);
      parts != [] ==>
        && PathStr(r.0.nodes, r.1) == PathStr(f.nodes, d) + "/" + JoinSlash(parts)
        && PathStr(r.0.nodes, r.1) in r.0.registry
        && r.0.registry[PathStr(r.0.nodes, r.1)] == r.1
    decreases |parts|
  {
    if parts != [] {
      var g := WithChild(f, d, parts[0]);
      WalkUnfold(f, d, parts);
      if |parts| > 1 {
        WalkReachesPath(g.0, g.1, parts[1..]);
        JoinSlashHead(parts);
        var r := WalkFrom(g.0, g.1, parts[1..]);
        SlashAssoc(PathStr(r.0.nodes, r.1), PathStr(g.0.nodes, g.1), PathStr(f.nodes, d), parts[0], JoinSlash(parts[1..]), JoinSlash(parts));
      }
    }
  }

  /** One step of the walk: `with_child` on the first part, then the rest. */
  lemma WalkUnfold(f: Forest, d: nat, parts: seq<string>)
    requires Valid(f) && d < |f.nodes| && f.nodes[d].Dir? && parts != []
    ensures var g := WithChild(f, d, parts[0]);
      WalkFrom(f, d, parts) == WalkFrom(g.0, g.1, parts[1..])
  {
  }

  lemma {:induction false} WalkKeepsTests(f: Forest, d: nat, parts: seq<string>, x: nat)
    requires Valid(f) && d < |f.nodes| && f.nodes[d].Dir?
    ensures TestNames(WalkFrom(f, d, parts).0.nodes, x) == TestNames(f.nodes, x)
    decreases |parts|
  {
    if parts != [] {
      var g := WithChild(f, d, parts[0]);
      WithChildKeepsTests(f, d, parts[0], x);
      WalkKeepsTests(g.0, g.1, parts[1..], x);
      assert WalkFrom(f, d, parts) == WalkFrom(g.0, g.1, parts[1..]);
    }
  }

  /** `for function in functions: dir.with_test(function)`. */
  function AddTests(f: Forest, d: nat, fs: seq<string>): (r: Forest)
    requires Valid(f) && d < |f.nodes| && f.nodes[d].Dir?
    ensures Valid(r) && Grows(f, r) && r.registry == f.registry
    decreases |fs|
  {
    if fs == [] then f
    else
      var g := WithTest(f, d, fs[0]).0;
      var r := AddTests(g, d, fs[1..]);
      GrowsTransitive(f, g, r);
      r
  }

  /** Adding the functions appends them, in order, to that directory's tests and to no other. */
  lemma {:induction false} AddTestsAppends(f: Forest, d: nat, fs: seq<string>, x: nat)
    requires Valid(f) && d < |f.nodes| && f.nodes[d].Dir?
    ensures TestNames(AddTests(f, d, fs).nodes, x) == TestNames(f.nodes, x) + (if x == d then fs else [])
    decreases |fs|
  {
    if fs != [] {
      var g := WithTest(f, d, fs[0]).0;
      WithTestAppends(f, d, fs[0], x);
      AddTestsAppends(g, d, fs[1..], x);
      assert AddTests(f, d, fs) == AddTests(g, d, fs[1..]);
      if x == d {
        AppendCons(TestNames(f.nodes, x), fs);
      }
    }
  }

  /**
    One iteration of the second loop of `from_pytest_output`: find or create
    the directory of the module's first path segment, walk the remaining
    segments with `with_child`, and add the module's functions as tests there.
    Also yields that directory.
   */
  function ProcessModule(f: Forest, m: string, fs: seq<string>): (r: (Forest, nat))
    requires Valid(f)
    ensures Valid(r.0) && Grows(f, r.0)
    ensures r.1 < |r.0.nodes| && r.0.nodes[r.1].Dir?
    ensures TopSegment(m) in r.0.registry
  {
    var parts := SplitSlash(m);
    var rt := RootDir(f, parts[0]);
    var w := WalkFrom(rt.0, rt.1, parts[1..]);
    var r := AddTests(w.0, w.1, fs);
    GrowsTransitive(f, rt.0, w.0);
    GrowsTransitive(f, w.0, r);
    (r, w.1)
  }

  /**
    The module's directory is the one whose path is the module path, and the
    registry holds it under that path.
   */
  lemma ModuleDirectory(f: Forest, m: string, fs: seq<string>)
    requires Valid(f)
    ensures var r := ProcessModule(f, m, fs);
      && PathStr(r.0.nodes, r.1) == m
      && m in r.0.registry && r.0.registry[m] == r.1
  {
    var parts := SplitSlash(m);
    JoinOfSplit(m);
    var rt := RootDir(f, parts[0]);
    var rest := parts[1..];
    var w := WalkFrom(rt.0, rt.1, rest);
    var r := AddTests(w.0, w.1, fs);
    assert PathStr(rt.0.nodes, rt.1) == parts[0];
    WalkReachesPath(rt.0, rt.1, rest);
    if rest == [] {
      assert parts == [parts[0]];
      assert w == rt;
    } else {
      assert parts == [parts[0]] + rest;
      JoinSlashCons(parts[0], rest);
    }
    PathsStable(w.0.nodes, r.nodes, w.1);
    assert ProcessModule(f, m, fs) == (r, w.1);
  }

  /** Processing a module adds its functions to its directory's tests and nowhere else. */
  lemma ModuleTests(f: Forest, m: string, fs: seq<string>, x: nat)
    requires Valid(f)
    ensures var r := ProcessModule(f, m, fs);
      TestNames(r.0.nodes, x) == TestNames(f.nodes, x) + (if x == r.1 then fs else [])
  {
    var parts := SplitSlash(m);
    var rt := RootDir(f, parts[0]);
    var w := WalkFrom(rt.0, rt.1, parts[1..]);
    RootDirKeepsTests(f, parts[0], x);
    WalkKeepsTests(rt.0, rt.1, parts[1..], x);
    AddTestsAppends(w.0, w.1, fs, x);
    assert ProcessModule(f, m, fs) == (AddTests(w.0, w.1, fs), w.1);
  }

  // ---------------------------------------------------------------------
  // Every module of module_info

  /** The second loop of `from_pytest_output`: every module of `module_info`, in order. */
  function BuildFrom(f: Forest, fns: map<string, seq<string>>, mods: seq<string>): (r: Forest)
    requires Valid(f)
    requires forall m :: m in mods ==> m in fns
    ensures Valid(r) && Grows(f, r)
    ensures forall m :: m in mods ==> m in r.registry && TopSegment(m) in r.registry
    decreases |mods|
  {
    if mods == [] then f
    else
      var g := ProcessModule(f, mods[0], fns[mods[0]]);
      ModuleDirectory(f, mods[0], fns[mods[0]]);
      var r := BuildFrom(g.0, fns, mods[1..]);
      GrowsTransitive(f, g.0, r);
      assert forall m :: m in mods ==> m == mods[0] || m in mods[1..];
      r
  }

  /** `module.split("/")[0]`: the top-level directory of a module path. */
  function TopSegment(m: string): (seg: string)
    ensures seg <= m && '/' !in seg
    ensures seg == m || m[|seg|] == '/'
  {
    SplitSlash(m)[0]
  }

  /**
    The state after the first `i` iterations of the second loop of
    `from_pytest_output`, counted from the front as the loop runs.
   */
  function BuildUpTo(f: Forest, fns: map<string, seq<string>>, mods: seq<string>, i: nat): (r: Forest)
    requires Valid(f) && i <= |mods|
    requires forall m :: m in mods ==> m in fns
    ensures Valid(r)
  {
    if i == 0 then f
    else ProcessModule(BuildUpTo(f, fns, mods, i - 1), mods[i - 1], fns[mods[i - 1]]).0
  }

  /** One more iteration moves a module from the remaining ones to the done ones. */
  lemma BuildUpToNext(f: Forest, fns: map<string, seq<string>>, mods: seq<string>, i: nat)
    requires Valid(f) && i < |mods|
    requires forall m :: m in mods ==> m in fns
    ensures forall m :: m in mods[i..] ==> m in fns
    ensures forall m :: m in mods[i + 1..] ==> m in fns
    ensures BuildFrom(BuildUpTo(f, fns, mods, i + 1), fns, mods[i + 1..]) ==
      BuildFrom(BuildUpTo(f, fns, mods, i), fns, mods[i..])
  {
    assert mods[i..][1..] == mods[i + 1..];
  }

  /** After `i` iterations, the remaining modules finish the same build. */
  lemma {:induction false} BuildUpToThenFrom(f: Forest, fns: map<string, seq<string>>, mods: seq<string>, i: nat)
    requires Valid(f) && i <= |mods|
    requires forall m :: m in mods ==> m in fns
    ensures forall m :: m in mods[i..] ==> m in fns
    ensures BuildFrom(BuildUpTo(f, fns, mods, i), fns, mods[i..]) == BuildFrom(f, fns, mods)
  {
    if i == 0 {
      assert mods[0..] == mods;
    } else {
      BuildUpToThenFrom(f, fns, mods, i - 1);
      BuildUpToNext(f, fns, mods, i - 1);
    }
  }

  /** Running the loop over every module gives `BuildFrom`. */
  lemma BuildUpToAll(f: Forest, fns: map<string, seq<string>>, mods: seq<string>)
    requires Valid(f)
    requires forall m :: m in mods ==> m in fns
    ensures BuildUpTo(f, fns, mods, |mods|) == BuildFrom(f, fns, mods)
  {
    BuildUpToThenFrom(f, fns, mods, |mods|);
    assert mods[|mods|..] == [];
  }

  /** The function names that modules registered at directory `x` contribute, in module order. */
  function Gathered(fns: map<string, seq<string>>, mods: seq<string>, reg: map<string, nat>, x: nat): seq<string>
    requires forall m :: m in mods ==> m in fns && m in reg
  {
    if mods == [] then []
    else (if reg[mods[0]] == x then fns[mods[0]] else []) + Gathered(fns, mods[1..], reg, x)
  }

  /**
    After the build, each directory holds the tests it held before followed by
    the functions of every module registered at it, in module order.
   */
  lemma {:induction false} BuildFromTests(f: Forest, fns: map<string, seq<string>>, mods: seq<string>, x: nat)
    requires Valid(f)
    requires forall m :: m in mods ==> m in fns
    ensures var r := BuildFrom(f, fns, mods);
      TestNames(r.nodes, x) == TestNames(f.nodes, x) + Gathered(fns, mods, r.registry, x)
    decreases |mods|
  {
    if mods != [] {
      var m := mods[0];
      var g := ProcessModule(f, m, fns[m]);
      ModuleDirectory(f, m, fns[m]);
      var r := BuildFrom(g.0, fns, mods[1..]);
      assert BuildFrom(f, fns, mods) == r;
      ModuleTests(f, m, fns[m], x);
      BuildFromTests(g.0, fns, mods[1..], x);
      assert r.registry[m] == g.1;
      AppendAssoc(TestNames(f.nodes, x), if g.1 == x then fns[m] else [], Gathered(fns, mods[1..], r.registry, x));
    }
  }

  /** With distinct module paths, at most one module contributes to a directory. */
  lemma {:induction false} GatheredDistinct(fns: map<string, seq<string>>, mods: seq<string>, reg: map<string, nat>, x: nat, p: string)
    requires forall m :: m in mods ==> m in fns && m in reg
    requires Listing.Distinct(mods)
    requires forall m :: m in mods && reg[m] == x ==> m == p
    ensures Gathered(fns, mods, reg, x) == if p in mods && reg[p] == x then fns[p] else []
    decreases |mods|
  {
    if mods != [] {
      GatheredDistinct(fns, mods[1..], reg, x, p);
      if mods[0] == p {
        assert p !in mods[1..];
      }
    }
  }

  /**
    With distinct module paths, the build appends a module's functions to the
    directory registered at its path, and leaves every other directory's
    tests, including those of a directory the registry no longer points to,
    as they were.
   */
  lemma BuiltModuleTests(f: Forest, fns: map<string, seq<string>>, mods: seq<string>, x: nat)
    requires Valid(f)
    requires forall m :: m in mods ==> m in fns
    requires Listing.Distinct(mods)
    ensures var r := BuildFrom(f, fns, mods);
      TestNames(r.nodes, x) == TestNames(f.nodes, x) +
        if x < |r.nodes| && r.nodes[x].Dir? && PathStr(r.nodes, x) in mods && r.registry[PathStr(r.nodes, x)] == x
        then fns[PathStr(r.nodes, x)] else []
  {
    var r := BuildFrom(f, fns, mods);
    BuildFromTests(f, fns, mods, x);
    var p := if x < |r.nodes| && r.nodes[x].Dir? then PathStr(r.nodes, x) else "";
    GatheredDistinct(fns, mods, r.registry, x, p);
  }

  // ---------------------------------------------------------------------
  // from_pytest_output

  /** The module lines of a listing, in order. */
  function ModuleLines(output: string): seq<string> {
    Listing.ModulePaths(Listing.Kinds(SplitLines(output)))
  }

  /**
    `module_info` for a listing: each module of the listing once, with an
    entry for each; empty exactly when the listing has no module line.
   */
  function ScanOf(output: string): (info: Listing.ModuleInfo)
    ensures Listing.Distinct(info.modules)
    ensures forall m :: m in info.modules <==> m in ModuleLines(output)
    ensures forall m :: m in info.modules ==> m in info.functions
    ensures info.modules == [] <==> ModuleLines(output) == []
  {
    var ks := Listing.Kinds(SplitLines(output));
    Listing.CollectModules(ks);
    Listing.DedupFacts(Listing.ModulePaths(ks));
    Listing.Collect(ks).info
  }

  /**
    `TestDir.from_pytest_output(output)`: the hierarchy after adding every
    module of the listing, and the directory registered under the first path
    segment of the last module in `module_info`'s order; with no module line
    `root` is never bound and the call fails.
   */
  function Parse(f: Forest, output: string): (r: (Forest, Result<nat, ParseError>))
    requires Valid(f)
    ensures Valid(r.0) && Grows(f, r.0)
    ensures r.1.Ok? ==> r.1.value < |r.0.nodes| && r.0.nodes[r.1.value].Dir?
  {
    var info := ScanOf(output);
    if info.modules == [] then (f, Err(RootUnbound))
    else
      var g := BuildFrom(f, info.functions, info.modules);
      var root := TopSegment(info.modules[|info.modules| - 1]);
      (g, Ok(g.registry[root]))
  }

  /**
    The parse fails exactly when the listing has no module line, and then
    changes nothing.  Otherwise it returns a top-level directory whose path is
    the first segment of the last module path in `module_info`.
   */
  lemma ParseOutcome(f: Forest, output: string)
    requires Valid(f)
    ensures var r := Parse(f, output);
      && (r.1.Err? <==> ModuleLines(output) == [])
      && (r.1.Err? ==> r.0 == f)
    ensures var r := Parse(f, output);
      var mods := ScanOf(output).modules;
      r.1.Ok? ==>
        && PathStr(r.0.nodes, r.1.value) == TopSegment(mods[|mods| - 1])
        && r.0.nodes[r.1.value].parent.None?
  {
    var r := Parse(f, output);
    var mods := ScanOf(output).modules;
    if mods != [] {
      assert mods[0] in ModuleLines(output);
      var root := TopSegment(mods[|mods| - 1]);
      assert '/' !in root;
      SlashFreePathIsTopLevel(r.0.nodes, r.1.value);
    }
  }

  /**
    After the parse, the directory registered at each module path holds the
    tests it held before followed by that module's functions; every other
    index holds the tests it held before.
   */
  lemma ParseTests(f: Forest, output: string, x: nat)
    requires Valid(f)
    ensures var r := Parse(f, output);
      var info := ScanOf(output);
      TestNames(r.0.nodes, x) == TestNames(f.nodes, x) +
        if x < |r.0.nodes| && r.0.nodes[x].Dir? && PathStr(r.0.nodes, x) in info.modules
           && r.0.registry[PathStr(r.0.nodes, x)] == x
        then info.functions[PathStr(r.0.nodes, x)] else []
  {
    var info := ScanOf(output);
    if info.modules != [] {
      var g := BuildFrom(f, info.functions, info.modules);
      assert Parse(f, output).0 == g;
      BuiltModuleTests(f, info.functions, info.modules, x);
    }
  }

  // ---------------------------------------------------------------------
  // One directory per path

  /**
    Every directory is the registry's entry for its own path.  While this
    holds, `with_child` never creates a second directory for a path that has
    one, so shared path prefixes of the modules share their directories.
   */
  predicate Complete(f: Forest)
    requires Valid(f)
  {
    forall i :: 0 <= i < |f.nodes| && f.nodes[i].Dir? ==>
      PathStr(f.nodes, i) in f.registry && f.registry[PathStr(f.nodes, i)] == i
  }

  /** In a complete state, two directories with the same path are the same directory. */
  lemma OneDirPerPath(f: Forest, i: nat, j: nat)
    requires Valid(f) && Complete(f)
    requires i < |f.nodes| && f.nodes[i].Dir? && j < |f.nodes| && f.nodes[j].Dir?
    requires PathStr(f.nodes, i) == PathStr(f.nodes, j)
    ensures i == j
  {
  }

  /**
    Growth that rebinds no key keeps the state complete when every directory
    it creates is registered under its own path.
   */
  lemma CompleteAfterGrowth(f: Forest, g: Forest)
    requires Valid(f) && Valid(g) && Complete(f) && Grows(f, g)
    requires forall i :: |f.nodes| <= i < |g.nodes| && g.nodes[i].Dir? ==>
      PathStr(g.nodes, i) in g.registry && g.registry[PathStr(g.nodes, i)] == i
    ensures Complete(g)
  {
    forall i | 0 <= i < |f.nodes| && g.nodes[i].Dir?
      ensures PathStr(g.nodes, i) in g.registry && g.registry[PathStr(g.nodes, i)] == i
    {
      PathsStable(f.nodes, g.nodes, i);
    }
  }

  /**
    `TestDir(name, parent)` keeps the state complete exactly when its path is
    not registered yet: on a registered path it rebinds the key, and the
    directory registered there before no longer is.
   */
  lemma NewDirComplete(f: Forest, name: string, parent: Option<nat>)
    requires Valid(f) && Complete(f)
    requires parent.Some? ==> parent.value < |f.nodes| && f.nodes[parent.value].Dir?
    ensures var r := NewDir(f, name, parent);
      Complete(r.0) <==> PathStr(r.0.nodes, r.1) !in f.registry
  {
    var r := NewDir(f, name, parent);
    var key := PathStr(r.0.nodes, r.1);
    if key !in f.registry {
      CompleteAfterGrowth(f, r.0);
    } else {
      var j := f.registry[key];
      PathsStable(f.nodes, r.0.nodes, j);
      assert r.0.nodes[j].Dir? && PathStr(r.0.nodes, j) == key;
      assert r.0.registry[key] != j;
    }
  }

  lemma WithChildComplete(f: Forest, d: nat, name: string)
    requires Valid(f) && Complete(f) && d < |f.nodes| && f.nodes[d].Dir?
    ensures Complete(WithChild(f, d, name).0)
  {
    if ChildKey(f, d, name) !in f.registry {
      NewDirComplete(f, name, Some(d));
    }
  }

  lemma WithTestComplete(f: Forest, d: nat, name: string)
    requires Valid(f) && Complete(f) && d < |f.nodes| && f.nodes[d].Dir?
    ensures Complete(WithTest(f, d, name).0)
  {
    AddNodeKeepsShape(f.nodes, Test(name, d));
    CompleteAfterGrowth(f, WithTest(f, d, name).0);
  }

  lemma RootDirComplete(f: Forest, root: string)
    requires Valid(f) && Complete(f)
    ensures Complete(RootDir(f, root).0)
  {
    if root !in f.registry {
      NewDirComplete(f, root, None);
    }
  }

  lemma {:induction false} WalkFromComplete(f: Forest, d: nat, parts: seq<string>)
    requires Valid(f) && Complete(f) && d < |f.nodes| && f.nodes[d].Dir?
    ensures Complete(WalkFrom(f, d, parts).0)
    decreases |parts|
  {
    if parts != [] {
      var g := WithChild(f, d, parts[0]);
      WalkUnfold(f, d, parts);
      WithChildComplete(f, d, parts[0]);
      WalkFromComplete(g.0, g.1, parts[1..]);
    }
  }

  lemma {:induction false} AddTestsComplete(f: Forest, d: nat, fs: seq<string>)
    requires Valid(f) && Complete(f) && d < |f.nodes| && f.nodes[d].Dir?
    ensures Complete(AddTests(f, d, fs))
    decreases |fs|
  {
    if fs != [] {
      var g := WithTest(f, d, fs[0]).0;
      WithTestComplete(f, d, fs[0]);
      AddTestsComplete(g, d, fs[1..]);
      assert AddTests(f, d, fs) == AddTests(g, d, fs[1..]);
    }
  }

  lemma ProcessModuleComplete(f: Forest, m: string, fs: seq<string>)
    requires Valid(f) && Complete(f)
    ensures Complete(ProcessModule(f, m, fs).0)
  {
    var parts := SplitSlash(m);
    var rt := RootDir(f, parts[0]);
    var w := WalkFrom(rt.0, rt.1, parts[1..]);
    RootDirComplete(f, parts[0]);
    WalkFromComplete(rt.0, rt.1, parts[1..]);
    AddTestsComplete(w.0, w.1, fs);
    assert ProcessModule(f, m, fs).0 == AddTests(w.0, w.1, fs);
  }

  lemma {:induction false} BuildFromComplete(f: Forest, fns: map<string, seq<string>>, mods: seq<string>)
    requires Valid(f) && Complete(f)
    requires forall m :: m in mods ==> m in fns
    ensures Complete(BuildFrom(f, fns, mods))
    decreases |mods|
  {
    if mods != [] {
      var g := ProcessModule(f, mods[0], fns[mods[0]]);
      ProcessModuleComplete(f, mods[0], fns[mods[0]]);
      BuildFromComplete(g.0, fns, mods[1..]);
      assert BuildFrom(f, fns, mods) == BuildFrom(g.0, fns, mods[1..]);
    }
  }

  /**
    A parse started from a complete state ends in one: it never makes a
    second directory for a path that already has one, and so no directory
    lists two child directories with the same path.
   */
  lemma ParseComplete(f: Forest, output: string)
    requires Valid(f) && Complete(f)
    ensures Complete(Parse(f, output).0)
  {
    var info := ScanOf(output);
    if info.modules != [] {
      BuildFromComplete(f, info.functions, info.modules);
    }
  }

  // ---------------------------------------------------------------------
  // Sequence facts

  lemma SlashAssoc(x: string, b: string, a: string, p: string, t: string, j: string)
    requires x == b + "/" + t && b == a + "/" + p && j == p + "/" + t
    ensures x == a + "/" + j
  {
  }

  lemma AppendCons<T>(a: seq<T>, s: seq<T>)
    requires s != []
    ensures a + [s[0]] + s[1..] == a + s
  {
    assert s == [s[0]] + s[1..];
  }

  lemma AppendAssoc<T>(a: seq<T>, b: seq<T>, c: seq<T>)
    ensures a + b + c == a + (b + c)
  {
  }
}
