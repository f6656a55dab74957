# shinier core in Dafny

This project models the two core parts of shinier:

- **The graph builder** (`src/shinier/graph.py`).
  - It classifies filesystem paths into nodes:
    - plain files and directories;
    - Python modules, with their import root and dotted import path;
    - packages, represented by their `__init__.py` module.
  - It expands each node into its children:
    - the entries of a directory;
    - the siblings of a package's `__init__.py`.
  - It builds a graph breadth first:
    - every node that is structurally new is appended;
    - an edge from the node being expanded records where that node was first discovered.
- **The command-line tokenizer** (`src/shinier/args.py`).
  - Name tests for kebab-case and snake_case.
  - Four single-token parsers, for `-c`, `--name`, `-c=value` and `--name=value`.
  - `parse_arguments`. It tries the parsers in priority order and falls back to a plain value.

The filesystem is a value: a finite map from paths to entries (file, directory listing, symbolic link, other).

- `Path.exists`, `is_symlink`, `resolve`, `is_dir`, `is_file` and `iterdir` are functions over that map (`FileSystems`).
- A symbolic link chain resolves to its first non-link entry. A dangling chain or a cycle resolves to nothing.

Modules and files:

| module | file | covers |
|---|---|---|
| `Wrappers` | `wrappers.dfy` | `Option`, `Result` |
| `Sequences` | `sequences.dfy` | the first index of an element in a sequence |
| `Paths` | `paths.dfy` | pathlib's `name`, `parent`, `suffix`, `stem`; `is_path_python_module`, `is_path_init_module` |
| `FileSystems` | `filesystems.dfy` | the filesystem value and link resolution |
| `Nodes` | `nodes.dfy` | the pydantic models as datatypes; the exceptions as `Error` |
| `Classifier` | `classifier.dfy` | `is_path_python_package`, `node_from_module_path`, `node_from_path` |
| `Children` | `children.dfy` | `child_nodes_from_node` |
| `GraphBuilder` | `graph_builder.dfy` | the `Graph` class, `graph_from_path` |
| `Args` | `args.dfy` | the whole of `args.py` |

### Design choices

**Imperative code is modelled imperatively.**

- `Graph` is a class. Its `nodes` and `edges` fields are updated in place by `AddNode` and `AddEdge`.
- The following are methods with loops:
  - `graph_from_path`, the breadth-first while loop over a growing node list;
  - `node_from_module_path`, the climb through package directories;
  - `node_from_path`, the symbolic link loop;
  - `parse_arguments`, the nested loops with the `parsed` flag, `break` and `for`…`else`.
- Each of those methods is proved equal to a function that specifies it, or against the graph invariants.

**`graph_from_path` is split in two.**

- The loop is `GraphBuilder.Walk`. It is generic over the expansion function and a finite set of nodes closed under expansion. That set bounds the walk.
- The inner `for child in children` loop is `GraphBuilder.AddChildren`, called once per expanded node.
- `GraphFromPath` classifies the root and passes `Walk` two things:
  - `child_nodes_from_node` on the filesystem, as the expansion function;
  - the nodes of all the filesystem's entries, as the bounding set.
- This is why the walk terminates even through symbolic link cycles.

**The character classes follow the source literally.**

- `UPPER` at `src/shinier/args.py:13` is `"ABCDEFGHIJKLMNOPQRSTUVwxyz"`, so upper-case `W`–`Z` are in neither `ALPHA` nor `ALNUM`.
- `Args.UpperStopsAtV` shows the effect: `-W` is not a flag but `-V` is.
- The kebab and snake tests are unaffected, because upper-case letters fail `islower` anyway.
- The parsers test membership with range predicates. `Args.AlphaMembers` and `Args.AlnumMembers` prove these equal to membership in the string constants.

**A package's `__init__.py` is not resolved.**

- `node_from_path` (`src/shinier/graph.py:272-273`) passes `path / "__init__.py"` to `node_from_module_path` as it is.
- So when a package's `__init__.py` is a symbolic link, its module node sits at the link. The model does the same.

**Where the docstring and the code disagree, the model follows the code.**

- The docstring of `parse_double_dash_assignment` (`src/shinier/args.py:221`) calls `--long=5=5` unsupported.
- The code splits at the first `=` and accepts it, with value `5=5`.
- The model follows the code (`Args.DoubleDashAssignmentKeepsLaterEquals`).

## Model

| member | source | states |
|---|---|---|
| Paths.Suffix | src/shinier/graph.py:210-213 | The suffix and the stem together give back the whole name. The suffix is empty or a dot followed by dot-free text. |
| Paths.PythonModuleByName | src/shinier/graph.py:210-213 | A path is a Python module exactly when its name is at least one character followed by `.py`. A bare `.py` is not a module. |
| Paths.InitIsPythonModule | src/shinier/graph.py:216-219 | `__init__.py` is a Python module, and its stem is `__init__`. |
| FileSystems.ResolveFrom | src/shinier/graph.py:261-266 | Link resolution ends, when it succeeds, at an entry of the filesystem that is not a symbolic link. A missing path resolves to nothing. An entry that is no link resolves to itself. |
| FileSystems.ResolveFromOnChain | src/shinier/graph.py:264-266 | Whatever link resolution reaches lies on the path's link chain, some number of links on. |
| FileSystems.ChainEndResolves | src/shinier/graph.py:264-266 | If the link chain from a path reaches an entry that is no link, the path resolves to that entry. |
| FileSystems.ResolveIsChainEnd | src/shinier/graph.py:264-266 | A path resolves to x exactly when x is an entry that is no link and the path's link chain reaches x. |
| FileSystems.ResolveThroughLink | src/shinier/graph.py:264-266 | A link resolves exactly as its target does, cycles included. So following one link per pass, or resolving the whole chain at once, ends at the same entry. |
| FileSystems.ResolvedIsFixed | src/shinier/graph.py:264-268 | After the link loop the path is no link, and it resolves to itself. |
| Classifier.ClimbFindsImportRoot | src/shinier/graph.py:244-246 | The climb stops at an ancestor that is no package, or at the filesystem root. Every directory below it down to the start is a package. Their names, outermost first, are put in front of the parts. |
| Classifier.NodeFromModulePath | src/shinier/graph.py:228-255 | The imperative climb loop yields exactly the module node, or the error, that `ModuleNodeOf` specifies. |
| Classifier.ModuleNodeNaming | src/shinier/graph.py:228-255 | Fails exactly on paths without the `.py` suffix. Otherwise it gives the import root and the import path: the run of packages, then the stem, which is absent for `__init__.py`. An `__init__.py` module is named after its directory; any other module is named by its stem and its file name. |
| Classifier.NodeFromPath | src/shinier/graph.py:258-286 | The imperative link loop and branches yield exactly `ClassifyPath`. |
| Classifier.ClassifyPathErrors | src/shinier/graph.py:258-269 | Nonexistence, including a dangling link or a link cycle, gives `PathDoesNotExist`. A target that is neither file nor directory gives `PathIsNotFileOrDirectory`. No other case fails; in particular `PathIsNotPythonModule` never escapes. |
| Classifier.ClassifyPathKinds | src/shinier/graph.py:268-286 | A package directory gives the module node of its `__init__.py`, named after the directory. Any other directory gives a filesystem node. A `.py` file gives a module node. Any other file gives a filesystem node whose short name is its stem. |
| Classifier.LinkGivesTargetNode | src/shinier/graph.py:261-266 | A symbolic link classifies exactly as its target: it succeeds exactly when the target does, and gives the same node. |
| Classifier.NodeSitsAtResolvedTarget | src/shinier/graph.py:264-286 | A node sits at the resolved target, which is no link, or at that directory's `__init__.py`, which may itself be a link. A filesystem node sits at the resolved target itself. |
| Classifier.AsWrittenClimbNeverExits | src/shinier/graph.py:244-246 | When the root directory holds `__init__.py`, the loop as written still has its guard true after any number of passes, and the parts keep growing. |
| Children.EntriesExcept | src/shinier/graph.py:301-305 | The filter `child != path` keeps exactly the other entries. A listing without the path is kept whole. |
| Children.EntriesExceptAppend | src/shinier/graph.py:301-305 | The filter distributes over concatenation, so it keeps the entries it keeps in their listing order. |
| Children.EntriesExceptOnce | src/shinier/graph.py:301-305 | A listing that names the path once, between `before` and `after`, filters to exactly `before + after`. |
| Children.NodesFromPaths | src/shinier/graph.py:295 | The comprehension gives one node per path, in order, each the path's classification. Otherwise it gives the error of the first path that fails. |
| Children.LeavesHaveNoChildren | src/shinier/graph.py:292-308 | A non-directory filesystem node has no children. So does a module other than `__init__.py`, and so does an object node. |
| Children.DirectoryChildren | src/shinier/graph.py:292-296 | A directory node's children are the nodes of its entries, in listing order. The expansion fails exactly when an entry does. |
| Children.PackageChildren | src/shinier/graph.py:298-305 | For a listing `before + [path] + after`, the children of the `__init__.py` module at `path` are the nodes of `before + after`, index by index, in listing order. The expansion fails exactly when one of those entries does. |
| Children.PackageChildrenAreSiblings | src/shinier/graph.py:298-305 | Whatever the listing holds, a node is a child of an `__init__.py` module exactly when it is the node of some other entry of its directory. |
| GraphBuilder.Graph.AddNode | src/shinier/graph.py:190-196 | Appends exactly when no structurally equal node is present, and reports whether it did. The edges are unchanged. Distinctness is kept. |
| GraphBuilder.Graph.AddEdge | src/shinier/graph.py:198-202 | Appends the child index to the parent's list, which starts empty. The nodes are unchanged. |
| GraphBuilder.Walk | src/shinier/graph.py:316-330 | The breadth-first loop terminates. On success the root is first, and no node appears twice. Every node is expanded and its children are nodes. Every edge goes forward, and a node has an edge list only if it has a child. Every non-root node has exactly one parent, the first node whose expansion lists it. Edges appear in breadth-first order. The children of one node are discovered in the order its expansion lists them. On failure the error is the expansion error of a node. |
| GraphBuilder.GraphFromPath | src/shinier/graph.py:311-330 | The root's classification error is passed through. Otherwise the result is the breadth-first discovery graph from the root's node, as in `Walk`, with siblings in the order `child_nodes_from_node` lists them. |
| GraphBuilder.AddChildren | src/shinier/graph.py:323-326 | The per-child loop only appends nodes, and only children. Every child ends up a node. An edge list is created only together with its first edge. The discovery tree keeps its properties, with the children's edges in listing order. |
| GraphBuilder.AddedEdgeKeepsTree | src/shinier/graph.py:323-326 | Appending a newly discovered child together with its edge keeps the edges forward, one parent each, at first discovery, and in breadth-first order. |
| GraphBuilder.LeafRootHasNoEdges | src/shinier/graph.py:316-330 | A root whose expansion lists no children gives a graph of the root alone, with an empty edge map. |
| GraphBuilder.NonRootIsListed | src/shinier/graph.py:320-326 | Every node but the root is listed by the expansion of some earlier node. |
| GraphBuilder.KeyHasChild | src/shinier/graph.py:323-326 | A parent has a key in the edge map only once it has a child, so some node lies past it. |
| GraphBuilder.AddedEdgeKeepsOrder | src/shinier/graph.py:323-326 | The newly appended child is listed first at the current position of the expansion. So its edge comes after those to children listed earlier, and sibling order is kept. |
| GraphBuilder.ExpansionsGiveTree | src/shinier/graph.py:320-328 | Once every node is expanded, the recorded expansions make the graph closed, its edges discovery edges, and its siblings ordered as the expansion lists them. |
| GraphBuilder.EntriesClosed | src/shinier/graph.py:314-322 | The nodes of the filesystem's entries contain every child of each of them. |
| GraphBuilder.ClassifiedIsNodeOfEntry | src/shinier/graph.py:314 | The root's node is the node of one of the entries. |
| GraphBuilder.ChildrenAreNodesOfEntries | src/shinier/graph.py:322 | Every child is the node of one of the entries. |
| GraphBuilder.DistinctBound | src/shinier/graph.py:320-328 | Distinct nodes drawn from a finite set are no more than its members. This bounds the loop. |
| Args.AlphaMembers | src/shinier/args.py:12-14 | `ALPHA` is exactly a–z and A–V. |
| Args.AlnumMembers | src/shinier/args.py:11-15 | `ALNUM` is exactly a–z, A–V and 0–9. |
| Args.Without | src/shinier/args.py:128 | `replace(sep, "")` keeps exactly the characters other than the separator. |
| Sequences.FirstIndexOf | src/shinier/args.py:234-237 | The first occurrence, or -1 exactly when the element is absent. |
| Args.SplitAtFirst | src/shinier/args.py:237 | `split("=", 1)` splits at the one `=` with none before it. |
| Args.SeparatedCaseCharacterized | src/shinier/args.py:113-150 | `is_kebab_case` / `is_snake_case` hold exactly for lower-case letters and digits joined by single separators, with no separator first or last and at least one letter. |
| Args.MixedCaseRejected | src/shinier/args.py:187-188 | A name holding both `-` and `_` is neither kebab nor snake case. |
| Args.ParseSingleDashFlag | src/shinier/args.py:153-165 | Yields exactly when the input is `-` plus one `ALPHA` character. Then it yields one flag whose sentinel and name give back the input. |
| Args.ParseDoubleDashFlag | src/shinier/args.py:168-190 | Yields exactly when the input is `--`, then an `ALPHA` character, then a snake or kebab name, with no `=` anywhere. Then it yields one flag whose sentinel and name give back the input. |
| Args.ParseSingleDashAssignment | src/shinier/args.py:193-217 | Yields exactly when the input is `-`, then an `ALPHA` character, then `=`. Flag, delimiter and value, which may be empty, give back the input. |
| Args.ParseDoubleDashAssignment | src/shinier/args.py:220-251 | Yields at most one assignment. Its flag, `=` and value give back the input. The flag holds no `=`. The name starts in `ALPHA` and is snake or kebab case. |
| Args.DoubleDashAssignmentAccepts | src/shinier/args.py:220-251 | Conversely, every `--name=value` with such a name is accepted, split at the first `=`, and the value is arbitrary. |
| Args.DoubleDashAssignmentKeepsLaterEquals | src/shinier/args.py:221-251 | For any accepted name, `--name=a=b` is accepted with value `a=b`. For example, `--long=5=5` gives value `5=5`. |
| Args.UpperStopsAtV | src/shinier/args.py:13-14 | `-W` is not a flag; `-V` is. |
| Args.ParseArguments | src/shinier/args.py:268-286 | The nested loops emit exactly `ParseAll`: per input, in order, everything the first parser that yields gives, else a value. |
| Args.ParseOneSingle | src/shinier/args.py:274-286 | With parsers that each yield at most one argument carrying the input, every input gives exactly one argument with the input as its full text. |
| Args.ParseAllOnePerInput | src/shinier/args.py:274-286 | With such parsers, the output has one argument per input, in input order. |
| Args.DefaultParsersYieldAtMostOne | src/shinier/args.py:258-263 | Each default parser yields at most one argument, carrying its input. |
| Args.DefaultParseOnePerInput | src/shinier/args.py:258-286 | With the default parsers, the output has one argument per input, in order, each with `full` equal to its input. |
| Args.DefaultParsersDisjoint | src/shinier/args.py:258-263 | No input is accepted by two default parsers. |
| Args.DefaultParseOne | src/shinier/args.py:274-286 | With the defaults, an input no parser accepts becomes `Value(s, s)`. Otherwise the one accepting parser's argument is emitted. |

## Left out

- Logging (`logger.debug` at `src/shinier/graph.py:265`) is not modelled. It has no effect on results.
- The real filesystem is replaced by a finite read-only map.
  - Directory order is the given listing.
  - Keys are canonical paths. A path running through a symbolic link to a directory, or holding `..`, is not modelled, and reads as missing.
- Relative paths are not modelled; every path is absolute, a sequence of names below `/`.
  - `Path('.').parent` is `Path('.')`, so a relative start path meets the same endless climb as the root in the finding below.
  - `Path.resolve()` makes a path absolute. So a link from a relative start path back into its directory gives a second node, absolute, for an entry already present under its relative name.
- Linux's limit of 40 links per resolution is not modelled. A link cycle is detected exactly instead, with the same outcome, `exists()` false.
- NodeFromPath follows one link per pass where `Path.resolve()` resolves the whole chain. `FileSystems.ResolveThroughLink` shows both end at the same entry.
- The pydantic machinery is not modelled: field descriptions, validation, serialisation and the `node_type` tags. The object location and object node are kept only as variants; nothing constructs them.
- Suffix and stem follow CPython 3.11 and earlier: the last dot, unless it leads or ends the name. Later versions treat a trailing dot differently.
- `iterdir()` on a path that is no directory raises an OS error. The model gives `CannotListDirectory`. This is reachable only for an `__init__.py` module node whose directory is gone.
- `str.islower` is modelled for ASCII only. It is evaluated only after every character has been checked to be in `ALNUM`.
- Generators are modelled as sequences: each parser returns what it yields, and `parse_arguments` returns the full list. For finite input the results are the same.
- GraphBuilder.GraphFromPath: on an expansion failure, the failing node is shown to be the node of some filesystem entry. It is not shown to be reachable from the root.
- GraphBuilder.Walk: on failure, the failing node is shown to be in the bounding set. It is not shown to be a node of the partial graph.

## Findings

| source | as written | input that shows it | evidently intended | confidence | as-written member | corrected member |
|---|---|---|---|---|---|---|
| src/shinier/graph.py:244-246 | The climb repeats while the import root is a package. The filesystem root is its own parent. | A filesystem whose root directory `/` holds `__init__.py`, classified at `/__init__.py` or at any module in `/`. Likewise a relative `Path('__init__.py')` or `Path('m.py')` in a working directory that holds `__init__.py`, since `Path('.').parent == Path('.')`. The loop never exits and `parts` grows without bound. | Stop the climb at the filesystem root. | not executed | Classifier.AsWrittenClimbNeverExits | Classifier.ClimbFindsImportRoot |
