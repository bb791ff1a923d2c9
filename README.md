# pytuist test hierarchy, modelled in Dafny

pytuist is a terminal front end for pytest. At its core is a tree of test
directories (`TestDir`) and tests (`Test`). `TestDir.from_pytest_output`
builds that tree from the text that `pytest --collect-only` prints. This
project models that core, `pytuist/pytuist.py`, and proves properties of it.

The modules:

- `Text` (`text.dfy`): the Python string primitives the parser relies on.
  - `str.splitlines()`, with Python's full set of line boundaries and "\r\n" counted as one boundary.
  - `str.split("/")` and `"/".join`.
  - The `\s` character class.
- `Markers` (`markers.dfy`): what `re.compile(r'<Module\s+(.*)>').search(line)` and its `Function` twin capture.
  - Only those two fixed patterns are modelled, not regular expressions in general.
  - The match is found anywhere in the line.
  - `\s+` is greedy.
  - The capture runs to the last `>` before the end of the line.
- `Listing` (`listing.dfy`): the first loop of `from_pytest_output`. It scans lines into `module_info`, an insertion-ordered dictionary from module path to function names.
- `TestTree` (`tree.dfy`): the objects, held as an arena.
  - Object `i` is the i-th one created.
  - A parent is a non-owning index.
  - A directory's `children` is an ordered list of indices.
  - This module also holds the recursive `fully_qualified_path_str`, `fully_qualified_path_list`, `depth` and the `__repr__` text.
- `Forest` (`forest.dfy`): each constructor and builder as a function from one state to the next.
  - The state is the objects plus the class-level `_dir_registry`.
  - The registry is never cleared, so it outlives a single parse, and a later parse reuses the directories of an earlier one.
- `Registry` (`hierarchy.dfy`): class `Hierarchy`.
  - Its fields are the objects and the registry.
  - Its methods change them in place, step by step, as the Python code does.
  - Each method is proved to reach exactly the state the matching `Forest` function describes.

What the parser's code does, each fact stated by a lemma:

- It returns the directory registered under the first path segment of the last module in `module_info` (`Forest.ParseOutcome`). Other top-level directories are not reachable from the result.
- When the listing has no module line, `root` is never bound and the return at pytuist/pytuist.py:111 fails (`Forest.ParseOutcome`, `Forest.ParseError.RootUnbound`).
- The path registry `_dir_registry` belongs to the class and is never cleared. The model keeps one registry for the whole program.
- A consequence: parsing the same listing twice appends each module's functions a second time to the same directories (`Forest.ParseTests`).
- Each directory is the registry's entry for its own path (`Forest.Complete`). `Registry.Hierarchy`'s constructor starts in such a state, and every `with_child`, `with_test` and parse keeps it (`Forest.ParseComplete`). So a parse never creates a second directory for a path that already has one, and shared path prefixes share their directories. A direct `TestDir(name, parent)` on an already registered path rebinds the key at pytuist/pytuist.py:41 and breaks this (`Forest.NewDirComplete`).

## Model

| member | source | states |
|---|---|---|
| Text.SplitLines | pytuist/pytuist.py:88 | `splitlines` gives lines that contain no line boundary, and no lines at all exactly for the empty text |
| Text.SplitLinesOfText | pytuist/pytuist.py:88 | splitting boundary-free lines that each end in "\n", or each in "\r\n", followed by an optional unterminated last line, gives exactly those lines back |
| Text.SplitLinesCons | pytuist/pytuist.py:88 | a boundary-free first line ended by "\n" or by "\r\n" is split off whole, and the rest is split on its own |
| Text.SplitLinesSingle | pytuist/pytuist.py:88 | a non-empty boundary-free text with no terminator is one line |
| Text.SplitSlash | pytuist/pytuist.py:99 | `split("/")` gives at least one segment, and no segment contains "/" |
| Text.JoinOfSplit | pytuist/pytuist.py:99-105 | joining a module path's segments with "/" gives the path back |
| Text.SplitOfJoin | pytuist/pytuist.py:99-105 | splitting a "/"-join of slash-free segments gives the segments back |
| Markers.Search | pytuist/pytuist.py:83-84 | `pattern.search(line)`: the group of the first position where the marker matches, or none; `Markers.MarkerRoundTrip` and `Markers.NoMarker` state what it captures |
| Markers.Classify | pytuist/pytuist.py:89-94 | the module search first, and the function search only when it fails; `Markers.ModuleLineRoundTrip` and `Markers.FunctionLineRoundTrip` state which lines it classifies how |
| Markers.MatchAt | pytuist/pytuist.py:83-84 | a match starting at a position needs `<`, the tag and a whitespace character there, and never captures a newline |
| Markers.NoMarker | pytuist/pytuist.py:83-94 | a line without `<` matches neither pattern |
| Markers.MarkerRoundTrip | pytuist/pytuist.py:83-94 | `p + "<Tag " + x + ">" + q` captures exactly `x`, for any prefix `p` without `<`, any `x` that holds no newline and does not start with whitespace, and any rest of line `q` without `>` or newline, even when `x` contains `>` |
| Markers.ModuleLineRoundTrip | pytuist/pytuist.py:83-91 | after a prefix without `<`, a module marker whose path holds no newline and does not start with whitespace, followed by a rest of line without `>`, makes the line a module line with that path |
| Markers.FunctionLineRoundTrip | pytuist/pytuist.py:84-95 | after a prefix without `<`, a function marker whose name holds no `<` or newline and does not start with whitespace, followed by a rest of line without `<` or `>`, makes the line a function line with that name |
| Listing.Step | pytuist/pytuist.py:89-96 | one pass of the scanning loop's body: a module line rebinds its path to an empty list and becomes current, a function line extends the current module's list if there is one; `Listing.CollectModules`, `Listing.OrphanFunctionsDropped` and `Listing.FunctionsOfLastBlock` state what the steps add up to |
| Listing.ScanListing | pytuist/pytuist.py:86-96 | the scanning loop ends with `module_info` equal to the fold of the line steps over the listing's lines |
| Listing.CollectModules | pytuist/pytuist.py:86-92 | module paths appear once each, in first-seen order; the dictionary's keys are exactly the listing's module paths; `current_module` is the last module line's path |
| Listing.OrphanFunctionsDropped | pytuist/pytuist.py:87-96 | lines before the first module line, function lines included, change nothing |
| Listing.FunctionsOfLastBlock | pytuist/pytuist.py:89-96 | a module's functions are the function lines, in order, of the block after its last module line, up to the next module line; a repeated module line discards the earlier list |
| TestTree.AddNode | pytuist/pytuist.py:40-61 | the appends at lines 43 and 60: the new object becomes the newest one and the last of its parent's children; `TestTree.AddNodeKeepsShape` states that nothing else changes and the shape is kept |
| TestTree.AddNodeKeepsShape | pytuist/pytuist.py:40-61 | creating an object keeps the tree well formed, appends it once at the end of its parent's children, and changes no other object |
| TestTree.PathStr | pytuist/pytuist.py:63-68 | `fully_qualified_path_str`, recursive over the parent chain; `TestTree.PathStrIsJoinedList` states that it is the path list joined by "/" and `TestTree.PathsStable` that it never changes |
| TestTree.PathList | pytuist/pytuist.py:70-72 | the path list is never empty and ends with the directory's own name |
| TestTree.PathStrIsJoinedList | pytuist/pytuist.py:63-72 | the path string is the path list joined with "/" |
| TestTree.Depth | pytuist/pytuist.py:74-76 | `depth`, one less than the path list's length; `TestTree.DepthOfChild` states its value |
| TestTree.DepthOfChild | pytuist/pytuist.py:74-76 | a parentless directory has depth 0; a child is one deeper than its parent |
| TestTree.PathsStable | pytuist/pytuist.py:63-72 | later construction never changes an existing directory's path or path list |
| TestTree.TestNamesAfterAdd | pytuist/pytuist.py:55-61 | creating an object adds a test name only to the directory it is a test of, at the end |
| TestTree.Dashes | pytuist/pytuist.py:115 | `("-" * 4) * d` is `4 * d` dashes, and none for a depth of 0 or less |
| TestTree.Repr | pytuist/pytuist.py:113-136 | `TestDir.__repr__` and `Test.__repr__`; `TestTree.ReprIsPreorderRows` states the layout of the whole text, `TestTree.ChildrenAligned` and `TestTree.TopLevelHeader` how lines start |
| TestTree.ChildrenAligned | pytuist/pytuist.py:113-136 | every child of a directory, test or directory, starts its text with a bar and `4 * (depth + 1)` dashes |
| TestTree.TopLevelHeader | pytuist/pytuist.py:114-117 | a parentless directory's text starts with its bracketed name and no bar |
| TestTree.ReprIsPreorderRows | pytuist/pytuist.py:113-136 | a node's text is one row per node of its subtree, in depth-first pre-order with siblings in `children` order, joined by line breaks; a directory without children leaves a blank line behind its row |
| Forest.NewDir | pytuist/pytuist.py:33-43 | `TestDir(name, parent)` adds one directory, registers it under its full path, appends it to the parent's children and keeps the state valid |
| Forest.WithChild | pytuist/pytuist.py:45-53 | `with_child` answers a directory whose path is `path/name` and which the registry holds under that key; no existing registry entry is rebound |
| Forest.WithChildGetOrCreate | pytuist/pytuist.py:45-53 | if `path/name` is registered, the state is unchanged and that directory is returned; otherwise exactly one child is appended and registered; a second call changes nothing |
| Forest.WithChildKeepsTests | pytuist/pytuist.py:45-53 | `with_child` adds no test anywhere |
| Forest.WithTest | pytuist/pytuist.py:55-61 | `with_test` creates one `Test` under the directory and leaves the registry unchanged |
| Forest.WithTestAppends | pytuist/pytuist.py:55-61 | the new test has the directory as parent and is appended after the earlier children; only that directory's test names gain the name |
| Forest.RootDir | pytuist/pytuist.py:99-103 | finding or creating the first segment's directory keeps the state valid, rebinds no existing registry entry and answers the directory the registry holds under the segment |
| Forest.WalkFrom | pytuist/pytuist.py:105-106 | walking the segments keeps the state valid and rebinds no registry entry |
| Forest.WalkReachesPath | pytuist/pytuist.py:105-106 | the walk ends at the directory whose path is the start path plus "/" and the joined segments, and the registry holds it under that path |
| Forest.WalkKeepsTests | pytuist/pytuist.py:105-106 | the walk adds no test anywhere |
| Forest.AddTests | pytuist/pytuist.py:108-109 | adding the functions keeps the state valid and the registry unchanged |
| Forest.AddTestsAppends | pytuist/pytuist.py:108-109 | the functions are appended, in order and without deduplication, to that directory's tests and to no other directory |
| Forest.ProcessModule | pytuist/pytuist.py:98-109 | one module's iteration keeps the state valid, rebinds no registry entry and registers its first segment |
| Forest.ModuleDirectory | pytuist/pytuist.py:99-106 | a module's directory has the module path as its path and is registered under it |
| Forest.ModuleTests | pytuist/pytuist.py:98-109 | one module's iteration adds its functions to its own directory and nowhere else |
| Forest.TopSegment | pytuist/pytuist.py:99 | `module.split("/")[0]` is the module path's prefix up to its first "/", or the whole path when it holds none |
| Forest.BuildFrom | pytuist/pytuist.py:98-109 | after every module, each module path and each first segment is registered |
| Forest.BuildUpToAll | pytuist/pytuist.py:98-109 | running the loop one module at a time from the front, over every module, reaches the same state as `BuildFrom` |
| Forest.BuildFromTests | pytuist/pytuist.py:98-109 | each directory ends with its earlier tests followed by the functions of every module registered at it, in module order |
| Forest.GatheredDistinct | pytuist/pytuist.py:92-98 | with distinct module paths, at most one module adds functions to a directory |
| Forest.BuiltModuleTests | pytuist/pytuist.py:98-109 | with distinct module paths, the directory registered at a module path gains exactly that module's functions, and every other directory keeps its tests |
| Forest.ScanOf | pytuist/pytuist.py:86-96 | `module_info` lists every module line's path once, has an entry for each, and is empty exactly when the listing has no module line |
| Forest.OneDirPerPath | pytuist/pytuist.py:27-53 | while every directory is registered under its own path, two directories with the same path are the same directory |
| Forest.NewDirComplete | pytuist/pytuist.py:33-43 | `TestDir(name, parent)` keeps every directory registered under its own path exactly when its path was not registered before; on a registered path the earlier directory loses its entry |
| Forest.WithChildComplete | pytuist/pytuist.py:45-53 | `with_child` keeps every directory registered under its own path |
| Forest.WithTestComplete | pytuist/pytuist.py:55-61 | `with_test` keeps every directory registered under its own path |
| Forest.RootDirComplete | pytuist/pytuist.py:99-103 | finding or creating the first segment's directory keeps every directory registered under its own path |
| Forest.WalkFromComplete | pytuist/pytuist.py:105-106 | the `with_child` walk keeps every directory registered under its own path |
| Forest.AddTestsComplete | pytuist/pytuist.py:108-109 | adding the functions keeps every directory registered under its own path |
| Forest.ProcessModuleComplete | pytuist/pytuist.py:99-109 | one module's iteration keeps every directory registered under its own path |
| Forest.BuildFromComplete | pytuist/pytuist.py:98-109 | the module loop keeps every directory registered under its own path |
| Forest.ParseComplete | pytuist/pytuist.py:79-111 | a parse from a state where every directory is registered under its own path ends in such a state, so it never makes a second directory for a path |
| Forest.Parse | pytuist/pytuist.py:79-111 | the parse keeps the state valid, rebinds no registry entry and, on success, answers a directory |
| Forest.ParseOutcome | pytuist/pytuist.py:98-111 | the parse fails exactly when the listing has no module line, and then changes nothing; otherwise it answers a top-level directory whose path is the last module's first segment |
| Forest.ParseTests | pytuist/pytuist.py:79-111 | after the parse, the directory registered at each module path has that module's functions appended to its earlier tests; every other directory keeps its tests |
| Registry.Hierarchy.constructor | pytuist/pytuist.py:27 | the program starts with no objects and an empty registry, where trivially every directory is registered under its own path |
| Registry.Hierarchy.NewDir | pytuist/pytuist.py:33-43 | the in-place constructor reaches the state `Forest.NewDir` describes |
| Registry.Hierarchy.WithChild | pytuist/pytuist.py:45-53 | the in-place `with_child` reaches the state and answer of `Forest.WithChild` |
| Registry.Hierarchy.WithTest | pytuist/pytuist.py:55-61 | the in-place `with_test` reaches the state and answer of `Forest.WithTest` |
| Registry.Hierarchy.FromPytestOutput | pytuist/pytuist.py:79-111 | the in-place parse reaches the state and result of `Forest.Parse`, and keeps every directory registered under its own path |
| Registry.Hierarchy.AddModules | pytuist/pytuist.py:98-111 | the module loop reaches `Forest.BuildFrom`'s state, through `Forest.BuildUpTo` after each iteration, and leaves `root` bound to the last module's first segment, or unbound when there is no module |
| Registry.Hierarchy.AddModule | pytuist/pytuist.py:99-109 | one module's iteration reaches `Forest.ProcessModule`'s state |
| Registry.Hierarchy.WalkParts | pytuist/pytuist.py:105-106 | the `with_child` loop reaches `Forest.WalkFrom`'s state and directory |
| Registry.Hierarchy.AddFunctions | pytuist/pytuist.py:108-109 | the `with_test` loop reaches `Forest.AddTests`'s state |

## Left out

- `get_tests` (pytuist/pytuist.py:143-153) runs pytest as a subprocess and decodes its output. That is I/O, so the listing text is a parameter of the parse instead.
- The rendering modules, the entry points and the key-reading loop are not modelled. They are UI-library and terminal code.
- Navigation, expand/collapse and the status-column alignment are not modelled. `TestDir` and `Test` in pytuist/pytuist.py define no `nav` or `renderer` attribute, yet main.py:44-59, pytuist/render.py:32-38 and src/render.py:32-43 call them. There is no code for them to model.
- Regular expressions in general are not modelled, only the two fixed marker patterns.
- `Test.__init__` (pytuist/pytuist.py:131-133) is modelled only as the first half of `with_test`. A `Test` created outside `with_test` is never added to a directory, and the arena holds only the objects the hierarchy reaches.
- `__str__` on both classes returns `__repr__` and is not modelled separately.
- Object identity and aliasing are modelled by indices into the arena, and Python's garbage collection is not modelled.
- Registry.Hierarchy: Python has exactly one class-level `_dir_registry`, shared by every `TestDir`. Dafny code could create two `Hierarchy` objects, each with its own registry, which the program cannot do. The model assumes one `Hierarchy` per program.
- An exception escaping `from_pytest_output` is modelled as the `Err(RootUnbound)` result. The exception's type and message are not modelled.
