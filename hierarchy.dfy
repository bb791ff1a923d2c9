/**
  `TestDir` and `Test` as the program runs them: objects created one after
  another, a parent's `children` list appended to in place, and the
  class-level `_dir_registry` dictionary updated as directories are created.
  A `Hierarchy` holds every object created so far, by creation order, and the
  registry; each method changes them as the Python code does and is proved to
  produce the state the matching `Forest` function describes.
 */
module Registry {
  import opened Wrappers
  import opened Text
  import opened TestTree
  import Listing
  import Forest

  class Hierarchy {
    /** Every `TestDir` and `Test` created so far; an object is its index. */
    var nodes: seq<Node>
    /** `TestDir._dir_registry`: fully-qualified path to directory. */
    var registry: map<string, nat>

    function State(): Forest.Forest
      reads this
    {
      Forest.Forest(nodes, registry)
    }

    ghost predicate Valid()
      reads this
    {
      Forest.Valid(State())
    }

    /** No object created yet and an empty registry. */
    constructor ()
      ensures Valid()
      ensures nodes == [] && registry == map[]
      ensures Forest.Complete(State())
    {
      nodes := [];
      registry := map[];
    }

    /**
      `TestDir(name, parent)`: `__init__` sets the name, the parent and an
      empty list of children; `__post_init__` registers the directory under
      its fully-qualified path and appends it to the parent's children.
     */
    method NewDir(name: string, parent: Option<nat>) returns (id: nat)
      requires Valid()
      requires parent.Some? ==> parent.value < |nodes| && nodes[parent.value].Dir?
      modifies this
      ensures Valid()
      ensures (State(), id) == Forest.NewDir(old(State()), name, parent)
    {
      var path := if parent.Some? then PathStr(nodes, parent.value) + "/" + name else name;
      ghost var before := nodes;
      id := |nodes|;
      nodes := nodes + [Dir(name, parent, [])];
      registry := registry[path := id];
      if parent.Some? {
        var p := parent.value;
        nodes := nodes[p := nodes[p].(children := nodes[p].children + [id])];
      }
      assert nodes == AddNode(before, Dir(name, parent, []));
      assert State() == Forest.NewDir(old(State()), name, parent).0;
    }

    /** `with_child`: the registered directory at `path/name`, or a new child. */
    method WithChild(d: nat, name: string) returns (c: nat)
      requires Valid() && d < |nodes| && nodes[d].Dir?
      modifies this
      ensures Valid()
      ensures (State(), c) == Forest.WithChild(old(State()), d, name)
    {
      var key := PathStr(nodes, d) + "/" + name;
      if key in registry {
        c := registry[key];
      } else {
        c := NewDir(name, Some(d));
      }
    }

    /** `with_test`: a new `Test` whose parent is `d`, appended to `d`'s children. */
    method WithTest(d: nat, name: string) returns (t: nat)
      requires Valid() && d < |nodes| && nodes[d].Dir?
      modifies this
      ensures Valid()
      ensures (State(), t) == Forest.WithTest(old(State()), d, name)
    {
      ghost var before := nodes;
      t := |nodes|;
      nodes := nodes + [Test(name, d)];
      nodes := nodes[d := nodes[d].(children := nodes[d].children + [t])];
      assert nodes == AddNode(before, Test(name, d));
      assert State() == Forest.WithTest(old(State()), d, name).0;
    }

    /**
      `TestDir.from_pytest_output`: scan the listing into `module_info`, then
      for each module find or create the directory of its first path segment,
      walk the other segments with `with_child` and add its functions with
      `with_test`; answer the directory registered under the last module's
      first segment, or fail when there was no module.
     */
    method FromPytestOutput(output: string) returns (result: Result<nat, Forest.ParseError>)
      requires Valid()
      modifies this
      ensures Valid()
      ensures (State(), result) == Forest.Parse(old(State()), output)
      ensures Forest.Complete(old(State())) ==> Forest.Complete(State())
    {
      var info := Listing.ScanListing(output);
      assert info == Forest.ScanOf(output);
      var root := AddModules(info.functions, info.modules);
      match root {
        case None =>
          result := Err(Forest.RootUnbound);
        case Some(r) =>
          result := Ok(registry[r]);
      }
      if Forest.Complete(old(State())) {
        Forest.ParseComplete(old(State()), output);
      }
    }

    /**
      The second loop of `from_pytest_output`, over the modules in
      `module_info`'s order; `root` is left unbound when there is none.
     */
    method AddModules(fns: map<string, seq<string>>, mods: seq<string>) returns (root: Option<string>)
      requires Valid()
      requires forall m :: m in mods ==> m in fns
      modifies this
      ensures Valid()
      ensures State() == Forest.BuildFrom(old(State()), fns, mods)
      ensures mods == [] ==> root.None?
      ensures mods != [] ==> root.Some? && root.value == Forest.TopSegment(mods[|mods| - 1])
    {
      root := None;
      var i := 0;
      while i < |mods|
        invariant 0 <= i <= |mods|
        invariant Valid()
        invariant State() == Forest.BuildUpTo(old(State()), fns, mods, i)
        invariant i == 0 ==> root.None?
        invariant i > 0 ==> root.Some? && root.value == Forest.TopSegment(mods[i - 1])
      {
        var m := mods[i];
        root := Some(Forest.TopSegment(m));
        AddModule(m, fns[m]);
        i := i + 1;
      }
      Forest.BuildUpToAll(old(State()), fns, mods);
    }

    /** The body of the second loop of `from_pytest_output`, for one module and its functions. */
    method AddModule(m: string, fs: seq<string>)
      requires Valid()
      modifies this
      ensures Valid()
      ensures State() == Forest.ProcessModule(old(State()), m, fs).0
    {
      var parts := SplitSlash(m);
      var dir: nat;
      if parts[0] !in registry {
        dir := NewDir(parts[0], None);
      } else {
        dir := registry[parts[0]];
      }
      assert (State(), dir) == Forest.RootDir(old(State()), parts[0]);
      dir := WalkParts(dir, parts[1..]);
      AddFunctions(dir, fs);
    }

    /** `for part in parts: dir = dir.with_child(part)`. */
    method WalkParts(d: nat, parts: seq<string>) returns (dir: nat)
      requires Valid() && d < |nodes| && nodes[d].Dir?
      modifies this
      ensures Valid()
      ensures (State(), dir) == Forest.WalkFrom(old(State()), d, parts)
    {
      dir := d;
      var j := 0;
      while j < |parts|
        invariant 0 <= j <= |parts|
        invariant Valid() && dir < |nodes| && nodes[dir].Dir?
        invariant Forest.WalkFrom(State(), dir, parts[j..]) == Forest.WalkFrom(old(State()), d, parts)
      {
        assert parts[j..][1..] == parts[j + 1..];
        dir := WithChild(dir, parts[j]);
        j := j + 1;
      }
    }

    /** `for function in functions: dir.with_test(function)`. */
    method AddFunctions(d: nat, fs: seq<string>)
      requires Valid() && d < |nodes| && nodes[d].Dir?
      modifies this
      ensures Valid()
      ensures State() == Forest.AddTests(old(State()), d, fs)
    {
      var k := 0;
      while k < |fs|
        invariant 0 <= k <= |fs|
        invariant Valid() && d < |nodes| && nodes[d].Dir?
        invariant Forest.AddTests(State(), d, fs[k..]) == Forest.AddTests(old(State()), d, fs)
      {
        assert fs[k..][1..] == fs[k + 1..];
        var t := WithTest(d, fs[k]);
        k := k + 1;
      }
    }
  }
}
