/**
  The test hierarchy of `TestDir` and `Test` objects, held as an arena: node
  `i` of a `seq<Node>` is the i-th object created, a parent is referred to by
  its index (a non-owning back reference), and a directory's `children` is the
  ordered list of the indices it owns.  This module holds what does not
  change state: the shape invariant, the recursive `fully_qualified_path_*`
  and `depth` properties, the `__repr__` text, and the one structural
  operation every constructor performs, adding a node.
 */
module TestTree {
  import opened Wrappers
  import opened Text

  datatype Node =
    | Dir(name: string, parent: Option<nat>, children: seq<nat>)
    | Test(name: string, owner: nat)

  /** The parent of a directory (none for a top-level one) or of a test. */
  function ParentOf(n: Node): Option<nat> {
    match n
    case Dir(_, p, _) => p
    case Test(_, o) => Some(o)
  }

  /** Parents are directories created before their children. */
  predicate ParentsBefore(nodes: seq<Node>) {
    forall i :: 0 <= i < |nodes| && ParentOf(nodes[i]).Some? ==>
      ParentOf(nodes[i]).value < i && nodes[ParentOf(nodes[i]).value].Dir?
  }

  /** Each `children` entry names an existing node whose parent is that directory. */
  predicate ChildrenPointBack(nodes: seq<Node>) {
    forall i, k :: 0 <= i < |nodes| && nodes[i].Dir? && 0 <= k < |nodes[i].children| ==>
      nodes[i].children[k] < |nodes| && ParentOf(nodes[nodes[i].children[k]]) == Some(i)
  }

  /** Children are listed in creation order, so none is listed twice. */
  predicate ChildrenOrdered(nodes: seq<Node>) {
    forall i, a, b :: 0 <= i < |nodes| && nodes[i].Dir? && 0 <= a < b < |nodes[i].children| ==>
      nodes[i].children[a] < nodes[i].children[b]
  }

  /** Every node with a parent is listed among its parent's children. */
  predicate ChildrenComplete(nodes: seq<Node>)
    requires ParentsBefore(nodes)
  {
    forall c :: 0 <= c < |nodes| && ParentOf(nodes[c]).Some? ==>
      c in nodes[ParentOf(nodes[c]).value].children
  }

  /** The shape every sequence of constructor calls keeps. */
  predicate WellFormed(nodes: seq<Node>) {
    ParentsBefore(nodes) && ChildrenPointBack(nodes) && ChildrenOrdered(nodes) && ChildrenComplete(nodes)
  }

  /** `nodes'` is `nodes` after further construction: nothing created earlier is renamed, reparented or loses a child. */
  predicate Extends(nodes: seq<Node>, nodes': seq<Node>) {
    |nodes| <= |nodes'| &&
    forall i :: 0 <= i < |nodes| ==>
      && nodes'[i].name == nodes[i].name
      && ParentOf(nodes'[i]) == ParentOf(nodes[i])
      && nodes'[i].Dir? == nodes[i].Dir?
      && (nodes[i].Dir? ==> nodes[i].children <= nodes'[i].children)
  }

  predicate CanAdd(nodes: seq<Node>, n: Node) {
    && (ParentOf(n).Some? ==> ParentOf(n).value < |nodes| && nodes[ParentOf(n).value].Dir?)
    && (n.Dir? ==> n.children == [])
  }

  /**
    Creating node `n`: it becomes the newest node and, when it has a parent,
    is appended once to the end of the parent's children.
   */
  function AddNode(nodes: seq<Node>, n: Node): (r: seq<Node>)
    requires CanAdd(nodes, n)
  {
    match ParentOf(n)
    case None => nodes + [n]
    case Some(p) => nodes[p := nodes[p].(children := nodes[p].children + [|nodes|])] + [n]
  }

  /**
    Adding a node keeps the shape, adds exactly one node, appends it to its
    parent's children after the earlier ones, and changes nothing else.
   */
  lemma AddNodeKeepsShape(nodes: seq<Node>, n: Node)
    requires WellFormed(nodes) && CanAdd(nodes, n)
    ensures WellFormed(AddNode(nodes, n))
    ensures Extends(nodes, AddNode(nodes, n))
    ensures |AddNode(nodes, n)| == |nodes| + 1 && AddNode(nodes, n)[|nodes|] == n
    ensures ParentOf(n).Some? ==>
      AddNode(nodes, n)[ParentOf(n).value].children == nodes[ParentOf(n).value].children + [|nodes|]
    ensures forall i :: 0 <= i < |nodes| && Some(i) != ParentOf(n) ==> AddNode(nodes, n)[i] == nodes[i]
  {
    var r := AddNode(nodes, n);
    AddedParentsBefore(nodes, n);
    AddedChildrenPointBack(nodes, n);
    AddedChildrenOrdered(nodes, n);
    AddedChildrenComplete(nodes, n);
  }

  lemma AddedParentsBefore(nodes: seq<Node>, n: Node)
    requires WellFormed(nodes) && CanAdd(nodes, n)
    ensures ParentsBefore(AddNode(nodes, n))
    ensures forall i :: 0 <= i < |nodes| ==> ParentOf(AddNode(nodes, n)[i]) == ParentOf(nodes[i])
    ensures forall i :: 0 <= i < |nodes| ==> AddNode(nodes, n)[i].Dir? == nodes[i].Dir?
  {
  }

  lemma AddedChildrenPointBack(nodes: seq<Node>, n: Node)
    requires WellFormed(nodes) && CanAdd(nodes, n)
    ensures ChildrenPointBack(AddNode(nodes, n))
  {
    AddedParentsBefore(nodes, n);
  }

  lemma AddedChildrenOrdered(nodes: seq<Node>, n: Node)
    requires WellFormed(nodes) && CanAdd(nodes, n)
    ensures ChildrenOrdered(AddNode(nodes, n))
  {
    var r := AddNode(nodes, n);
    forall i, a, b | 0 <= i < |r| && r[i].Dir? && 0 <= a < b < |r[i].children|
      ensures r[i].children[a] < r[i].children[b]
    {
      if i < |nodes| && ParentOf(n) == Some(i) && b == |nodes[i].children| {
        assert r[i].children[b] == |nodes|;
        assert r[i].children[a] == nodes[i].children[a];
      }
    }
  }

  lemma AddedChildrenComplete(nodes: seq<Node>, n: Node)
    requires WellFormed(nodes) && CanAdd(nodes, n)
    ensures ParentsBefore(AddNode(nodes, n))
    ensures ChildrenComplete(AddNode(nodes, n))
  {
    var r := AddNode(nodes, n);
    var id := |nodes|;
    AddedParentsBefore(nodes, n);
    forall c | 0 <= c < |r| && ParentOf(r[c]).Some?
      ensures c in r[ParentOf(r[c]).value].children
    {
      var p := ParentOf(r[c]).value;
      if c < id {
        assert c in nodes[p].children;
        assert nodes[p].children <= r[p].children;
      } else {
        assert r[p].children == nodes[p].children + [id];
      }
    }
  }

  // ---------------------------------------------------------------------
  // Paths and depth

  /** `fully_qualified_path_str`: the parent's path, "/" and the name; a top-level directory's path is its name. */
  function PathStr(nodes: seq<Node>, i: nat): string
    requires ParentsBefore(nodes) && i < |nodes| && nodes[i].Dir?
    decreases i
  {
    match nodes[i].parent
    case Some(p) => PathStr(nodes, p) + "/" + nodes[i].name
    case None => nodes[i].name
  }

  /** `fully_qualified_path_list`: the names from the top-level directory down to this one. */
  function PathList(nodes: seq<Node>, i: nat): (path: seq<string>)
    requires ParentsBefore(nodes) && i < |nodes| && nodes[i].Dir?
    ensures |path| >= 1 && path[|path| - 1] == nodes[i].name
    decreases i
  {
    match nodes[i].parent
    case Some(p) => PathList(nodes, p) + [nodes[i].name]
    case None => [nodes[i].name]
  }

  /** `depth`: one less than the length of the path list. */
  function Depth(nodes: seq<Node>, i: nat): int
    requires ParentsBefore(nodes) && i < |nodes| && nodes[i].Dir?
  {
    |PathList(nodes, i)| - 1
  }

  /** The path string is the path list joined by "/". */
  lemma {:induction false} PathStrIsJoinedList(nodes: seq<Node>, i: nat)
    requires ParentsBefore(nodes) && i < |nodes| && nodes[i].Dir?
    ensures PathStr(nodes, i) == JoinSlash(PathList(nodes, i))
    decreases i
  {
    match nodes[i].parent
    case Some(p) =>
      PathStrIsJoinedList(nodes, p);
      var l := PathList(nodes, p) + [nodes[i].name];
      assert l[..|l| - 1] == PathList(nodes, p);
    case None =>
  }

  /** A top-level directory has depth 0; a child is one deeper than its parent. */
  lemma DepthOfChild(nodes: seq<Node>, i: nat)
    requires ParentsBefore(nodes) && i < |nodes| && nodes[i].Dir?
    ensures Depth(nodes, i) >= 0
    ensures nodes[i].parent.None? ==> Depth(nodes, i) == 0
    ensures nodes[i].parent.Some? ==> Depth(nodes, i) == Depth(nodes, nodes[i].parent.value) + 1
  {
  }

  /** Paths, and so depths, never change once a directory exists. */
  lemma {:induction false} PathsStable(nodes: seq<Node>, nodes': seq<Node>, i: nat)
    requires ParentsBefore(nodes) && ParentsBefore(nodes') && Extends(nodes, nodes')
    requires i < |nodes| && nodes[i].Dir?
    ensures PathStr(nodes', i) == PathStr(nodes, i)
    ensures PathList(nodes', i) == PathList(nodes, i)
    decreases i
  {
    assert ParentOf(nodes'[i]) == ParentOf(nodes[i]);
    match nodes[i].parent
    case Some(p) => PathsStable(nodes, nodes', p);
    case None =>
  }

  // ---------------------------------------------------------------------
  // The tests a directory holds

  /** Names of the `Test` nodes among `cs`, in order. */
  function LeafNames(nodes: seq<Node>, cs: seq<nat>): seq<string>
    requires forall k :: 0 <= k < |cs| ==> cs[k] < |nodes|
  {
    if cs == [] then []
    else
      var c := cs[|cs| - 1];
      LeafNames(nodes, cs[..|cs| - 1]) + (if nodes[c].Test? then [nodes[c].name] else [])
  }

  /** Names of the tests directly under directory `x`, in order; none for any other index. */
  function TestNames(nodes: seq<Node>, x: nat): seq<string>
    requires WellFormed(nodes)
  {
    if x < |nodes| && nodes[x].Dir? then LeafNames(nodes, nodes[x].children) else []
  }

  lemma {:induction false} LeafNamesStable(nodes: seq<Node>, nodes': seq<Node>, cs: seq<nat>)
    requires Extends(nodes, nodes')
    requires forall k :: 0 <= k < |cs| ==> cs[k] < |nodes|
    ensures LeafNames(nodes', cs) == LeafNames(nodes, cs)
    decreases |cs|
  {
    if cs != [] {
      LeafNamesStable(nodes, nodes', cs[..|cs| - 1]);
    }
  }

  /** Creating a node adds a test name only to the directory it is a test of, at the end. */
  lemma TestNamesAfterAdd(nodes: seq<Node>, n: Node, x: nat)
    requires WellFormed(nodes) && CanAdd(nodes, n)
    ensures WellFormed(AddNode(nodes, n))
    ensures TestNames(AddNode(nodes, n), x) ==
      TestNames(nodes, x) + (if n.Test? && n.owner == x then [n.name] else [])
  {
    AddNodeKeepsShape(nodes, n);
    var r := AddNode(nodes, n);
    if x < |nodes| && nodes[x].Dir? {
      var cs := nodes[x].children;
      LeafNamesStable(nodes, r, cs);
      if ParentOf(n) == Some(x) {
        var cs' := cs + [|nodes|];
        assert r[x].children == cs';
        assert cs'[..|cs'| - 1] == cs;
      }
    }
  }

  // ---------------------------------------------------------------------
  // The text of `__repr__`

  /** `("-" * 4) * d`. */
  function Dashes(d: int): (s: string)
    ensures |s| == if d <= 0 then 0 else 4 * d
    ensures forall k :: 0 <= k < |s| ==> s[k] == '-'
    decreases d
  {
    if d <= 0 then "" else "----" + Dashes(d - 1)
  }

  /** `"\n".join(parts)`. */
  function JoinLines(parts: seq<string>): string {
    if parts == [] then ""
    else if |parts| == 1 then parts[0]
    else parts[0] + "\n" + JoinLines(parts[1..])
  }

  /**
    `TestDir.__repr__` and `Test.__repr__`: a nested directory's line is a bar,
    four dashes per level of depth and the bracketed name; a top-level
    directory's line is the bracketed name alone; both end in "\n" and are
    followed by the children's texts joined by "\n".  A test's text is a bar,
    four dashes per level below its directory's depth plus one, "> " and the
    name.
   */
  function Repr(nodes: seq<Node>, i: nat): string
    requires WellFormed(nodes) && i < |nodes|
    decreases |nodes| - i
  {
    match nodes[i]
    case Test(name, o) => "|" + Dashes(Depth(nodes, o) + 1) + "> " + name
    case Dir(name, parent, cs) =>
      var head := if parent.Some? then "|" + Dashes(Depth(nodes, i)) + "[" + name + "]\n" else "[" + name + "]\n";
      head + JoinLines(seq(|cs|, k requires 0 <= k < |cs| => Repr(nodes, cs[k])))
  }

  /** The bar and dashes in front of what a child of a directory at depth `d` prints. */
  function ChildIndent(d: int): string {
    "|" + Dashes(d + 1)
  }

  /**
    Every child of a directory, test or directory alike, starts its text with
    a bar and four dashes per level of the directory's depth plus one, so the
    children of one directory line up in one column.
   */
  lemma ChildrenAligned(nodes: seq<Node>, d: nat, k: nat)
    requires WellFormed(nodes) && d < |nodes| && nodes[d].Dir?
    requires k < |nodes[d].children|
    ensures |ChildIndent(Depth(nodes, d))| == 4 * Depth(nodes, d) + 5
    ensures ChildIndent(Depth(nodes, d)) <= Repr(nodes, nodes[d].children[k])
  {
    var c := nodes[d].children[k];
    DepthOfChild(nodes, d);
    if nodes[c].Dir? {
      DepthOfChild(nodes, c);
    }
  }

  /** A top-level directory's text starts with its bracketed name, with no bar in front. */
  lemma TopLevelHeader(nodes: seq<Node>, i: nat)
    requires WellFormed(nodes) && i < |nodes| && nodes[i].Dir? && nodes[i].parent.None?
    ensures "[" + nodes[i].name + "]\n" <= Repr(nodes, i)
  {
  }

  // ---------------------------------------------------------------------
  // The layout of `__repr__`: one row per node, in depth-first pre-order

  /** The concatenation of a list of lists, in order. */
  function Flatten<T>(ss: seq<seq<T>>): seq<T> {
    if ss == [] then [] else ss[0] + Flatten(ss[1..])
  }

  /** The subtree of node `i`: `i` itself, then each child's subtree in `children` order. */
  function Preorder(nodes: seq<Node>, i: nat): (order: seq<nat>)
    requires WellFormed(nodes) && i < |nodes|
    ensures |order| >= 1 && order[0] == i
    decreases |nodes| - i
  {
    match nodes[i]
    case Test(_, _) => [i]
    case Dir(_, _, cs) => [i] + Flatten(seq(|cs|, k requires 0 <= k < |cs| => Preorder(nodes, cs[k])))
  }

  /**
    The row node `j` prints: for a test, a bar, four dashes per level below
    its directory's depth plus one and "> name"; for a directory, the
    bracketed name behind a bar and four dashes per level of depth (nothing
    in front for a top-level one).  A directory without children ends its
    text in a line break of its own, so its row carries one.
   */
  function Row(nodes: seq<Node>, j: nat): string
    requires ParentsBefore(nodes)
  {
    if j >= |nodes| then ""
    else match nodes[j]
      case Test(name, o) => "|" + Dashes(Depth(nodes, o) + 1) + "> " + name
      case Dir(name, parent, cs) =>
        (if parent.Some? then "|" + Dashes(Depth(nodes, j)) else "") + "[" + name + "]" + (if cs == [] then "\n" else "")
  }

  function Rows(nodes: seq<Node>, js: seq<nat>): seq<string>
    requires ParentsBefore(nodes)
  {
    seq(|js|, k requires 0 <= k < |js| => Row(nodes, js[k]))
  }

  lemma {:induction false} JoinLinesAppend(a: seq<string>, b: seq<string>)
    requires a != [] && b != []
    ensures JoinLines(a + b) == JoinLines(a) + "\n" + JoinLines(b)
    decreases |a|
  {
    if |a| == 1 {
      assert (a + b)[1..] == b;
    } else {
      assert (a + b)[1..] == a[1..] + b;
      JoinLinesAppend(a[1..], b);
    }
  }

  /** Joining the joined texts of non-empty lists of rows is joining all the rows. */
  lemma {:induction false} JoinLinesFlatten(ls: seq<seq<string>>)
    requires ls != [] && forall k :: 0 <= k < |ls| ==> ls[k] != []
    ensures JoinLines(seq(|ls|, k requires 0 <= k < |ls| => JoinLines(ls[k]))) == JoinLines(Flatten(ls))
    decreases |ls|
  {
    var joined := seq(|ls|, k requires 0 <= k < |ls| => JoinLines(ls[k]));
    if |ls| == 1 {
      assert Flatten(ls) == ls[0] + Flatten(ls[1..]);
      assert ls[0] + [] == ls[0];
    } else {
      var rest := ls[1..];
      JoinLinesFlatten(rest);
      assert joined[1..] == seq(|rest|, k requires 0 <= k < |rest| => JoinLines(rest[k]));
      assert Flatten(rest) != [] by { assert Flatten(rest) == rest[0] + Flatten(rest[1..]); }
      JoinLinesAppend(ls[0], Flatten(rest));
    }
  }

  lemma {:induction false} RowsOfFlatten(nodes: seq<Node>, ss: seq<seq<nat>>)
    requires ParentsBefore(nodes)
    ensures Rows(nodes, Flatten(ss)) == Flatten(seq(|ss|, k requires 0 <= k < |ss| => Rows(nodes, ss[k])))
    decreases |ss|
  {
    if ss != [] {
      var rs := seq(|ss|, k requires 0 <= k < |ss| => Rows(nodes, ss[k]));
      RowsOfFlatten(nodes, ss[1..]);
      assert rs[1..] == seq(|ss[1..]|, k requires 0 <= k < |ss[1..]| => Rows(nodes, ss[1..][k]));
      assert Rows(nodes, ss[0] + Flatten(ss[1..])) == Rows(nodes, ss[0]) + Rows(nodes, Flatten(ss[1..]));
    }
  }

  /** A directory with children prints its row, a line break, and its children's texts joined by line breaks. */
  lemma ReprOfParent(nodes: seq<Node>, i: nat, ls: seq<seq<string>>)
    requires WellFormed(nodes) && i < |nodes| && nodes[i].Dir? && nodes[i].children != []
    requires |ls| == |nodes[i].children|
    requires forall k :: 0 <= k < |ls| ==> Repr(nodes, nodes[i].children[k]) == JoinLines(ls[k])
    ensures Repr(nodes, i) == Row(nodes, i) + "\n" + JoinLines(seq(|ls|, k requires 0 <= k < |ls| => JoinLines(ls[k])))
  {
    var cs := nodes[i].children;
    var reprs := seq(|cs|, k requires 0 <= k < |cs| => Repr(nodes, cs[k]));
    assert reprs == seq(|ls|, k requires 0 <= k < |ls| => JoinLines(ls[k]));
  }

  /** The rows of a node followed by several runs of nodes are its row followed by each run's rows. */
  lemma RowsOfCons(nodes: seq<Node>, i: nat, ss: seq<seq<nat>>)
    requires ParentsBefore(nodes)
    ensures Rows(nodes, [i] + Flatten(ss)) ==
      [Row(nodes, i)] + Flatten(seq(|ss|, k requires 0 <= k < |ss| => Rows(nodes, ss[k])))
  {
    RowsOfFlatten(nodes, ss);
    assert Rows(nodes, [i] + Flatten(ss)) == [Row(nodes, i)] + Rows(nodes, Flatten(ss));
  }

  /**
    The text of node `i` is the rows of its subtree, in depth-first pre-order,
    joined by line breaks: every node prints exactly one row, a directory's
    row comes before the rows of its children, siblings keep their order,
    and an empty directory leaves a blank line behind it.
   */
  lemma {:induction false} ReprIsPreorderRows(nodes: seq<Node>, i: nat)
    requires WellFormed(nodes) && i < |nodes|
    ensures Repr(nodes, i) == JoinLines(Rows(nodes, Preorder(nodes, i)))
    decreases |nodes| - i
  {
    if nodes[i].Dir? && nodes[i].children != [] {
      var cs := nodes[i].children;
      var ss := seq(|cs|, k requires 0 <= k < |cs| => Preorder(nodes, cs[k]));
      var ls := seq(|ss|, k requires 0 <= k < |ss| => Rows(nodes, ss[k]));
      forall k | 0 <= k < |cs|
        ensures Repr(nodes, cs[k]) == JoinLines(ls[k]) && ls[k] != []
      {
        assert cs[k] > i;
        ReprIsPreorderRows(nodes, cs[k]);
      }
      ReprOfParent(nodes, i, ls);
      JoinLinesFlatten(ls);
      assert Preorder(nodes, i) == [i] + Flatten(ss);
      RowsOfCons(nodes, i, ss);
      assert Flatten(ls) != [] by { assert Flatten(ls) == ls[0] + Flatten(ls[1..]); }
      JoinLinesAppend([Row(nodes, i)], Flatten(ls));
    }
  }
}
