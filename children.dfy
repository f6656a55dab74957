/** child_nodes_from_node: the nodes one traversal step expands a node into. */
module Children {
  import opened Wrappers
  import opened Paths
  import opened FileSystems
  import opened Nodes
  import opened Classifier

  /** The comprehension's filter `child != path`: the entries other than skip, in order. */
  function EntriesExcept(entries: seq<Path>, skip: Path): (r: seq<Path>)
    ensures forall q :: q in r <==> q in entries && q != skip
    ensures |r| <= |entries|
    ensures skip !in entries ==> r == entries
  {
    if entries == [] then []
    else (if entries[0] != skip then [entries[0]] else []) + EntriesExcept(entries[1..], skip)
  }

  /** The filter distributes over concatenation: it keeps the order of what it keeps. */
  lemma {:induction false} EntriesExceptAppend(a: seq<Path>, b: seq<Path>, skip: Path)
    ensures EntriesExcept(a + b, skip) == EntriesExcept(a, skip) + EntriesExcept(b, skip)
  {
    if a == [] {
      assert a + b == b;
    } else {
      assert (a + b)[0] == a[0];
      assert (a + b)[1..] == a[1..] + b;
      EntriesExceptAppend(a[1..], b, skip);
    }
  }

  /**
   * A listing that names skip once loses exactly that entry: what comes before and
   * after it stays, in order.
   */
  lemma EntriesExceptOnce(before: seq<Path>, skip: Path, after: seq<Path>)
    requires skip !in before && skip !in after
    ensures EntriesExcept(before + [skip] + after, skip) == before + after
  {
    var init := before + [skip];
    EntriesExceptAppend(init, after, skip);
    EntriesExceptAppend(before, [skip], skip);
    assert [skip][1..] == [];
    assert EntriesExcept([skip], skip) == [];
    assert EntriesExcept(before, skip) == before;
    assert EntriesExcept(init, skip) == before;
    assert EntriesExcept(after, skip) == after;
  }

  /**
   * The paths child_nodes_from_node classifies: a filesystem node's directory entries
   * (none if it is no directory), an "__init__.py" module's siblings, nothing for any
   * other node. Listing the directory of an "__init__.py" that is gone fails as
   * iterdir() does.
   */
  function ChildPaths(fs: FileSystem, node: Node): Result<seq<Path>, Error> {
    match node
    case FilesystemNode(location, _) =>
      var path := location.filePath;
      Ok(if IsDir(fs, path) then Listing(fs, path) else [])
    case PythonModuleNode(location, _) =>
      var path := location.filePath;
      if IsInitModule(path) then
        var dir := Parent(path);
        if IsDir(fs, dir) then Ok(EntriesExcept(Listing(fs, dir), path))
        else Err(CannotListDirectory(dir))
      else Ok([])
    case PythonObjectNode(_, _) => Ok([])
  }

  /**
   * `[node_from_path(child) for child in paths]`: one node per path, in order, or the
   * error of the first path that fails.
   */
  function NodesFromPaths(fs: FileSystem, paths: seq<Path>): (r: Result<seq<Node>, Error>)
    ensures r.Ok? <==> forall k :: 0 <= k < |paths| ==> ClassifyPath(fs, paths[k]).Ok?
    ensures r.Ok? ==> |r.value| == |paths|
    ensures r.Ok? ==> forall k :: 0 <= k < |paths| ==> ClassifyPath(fs, paths[k]) == Ok(r.value[k])
    ensures r.Err? ==> exists k :: 0 <= k < |paths| && ClassifyPath(fs, paths[k]) == Err(r.error)
                                   && forall j :: 0 <= j < k ==> ClassifyPath(fs, paths[j]).Ok?
  {
    if paths == [] then Ok([])
    else match ClassifyPath(fs, paths[0])
      case Err(e) => Err(e)
      case Ok(n) =>
        match NodesFromPaths(fs, paths[1..])
        case Err(e) =>
          ghost var k :| 0 <= k < |paths[1..]| && ClassifyPath(fs, paths[1..][k]) == Err(e)
                         && forall j :: 0 <= j < k ==> ClassifyPath(fs, paths[1..][j]).Ok?;
          assert ClassifyPath(fs, paths[k + 1]) == Err(e);
          Err(e)
        case Ok(ns) => Ok([n] + ns)
  }

  /** child_nodes_from_node. */
  function ChildNodes(fs: FileSystem, node: Node): Result<seq<Node>, Error> {
    match ChildPaths(fs, node)
    case Err(e) => Err(e)
    case Ok(paths) => NodesFromPaths(fs, paths)
  }

  /** A file's filesystem node, a module other than "__init__.py" and an object have no children. */
  lemma LeavesHaveNoChildren(fs: FileSystem, node: Node)
    requires || (node.FilesystemNode? && !IsDir(fs, node.location.filePath))
             || (node.PythonModuleNode? && !IsInitModule(node.location.filePath))
             || node.PythonObjectNode?
    ensures ChildNodes(fs, node) == Ok([])
  {
  }

  /**
   * A directory's filesystem node has one child per directory entry, in listing order,
   * each the node of that entry; the expansion fails exactly when some entry does.
   */
  lemma DirectoryChildren(fs: FileSystem, node: Node)
    requires node.FilesystemNode? && IsDir(fs, node.location.filePath)
    ensures var dir := node.location.filePath;
      var entries := Listing(fs, dir);
      && (ChildNodes(fs, node).Ok? <==> forall k :: 0 <= k < |entries| ==> ClassifyPath(fs, entries[k]).Ok?)
      && (ChildNodes(fs, node).Ok? ==>
            && |ChildNodes(fs, node).value| == |fs[Resolve(fs, dir).value].listing|
            && forall k :: 0 <= k < |entries| ==>
                 ClassifyPath(fs, dir + [fs[Resolve(fs, dir).value].listing[k]]) == Ok(ChildNodes(fs, node).value[k]))
  {
  }

  /**
   * An "__init__.py" module whose directory lists it once has one child per other
   * entry, in listing order, each the node of that entry; the expansion fails exactly
   * when one of those entries does.
   */
  lemma PackageChildren(fs: FileSystem, node: Node, before: seq<Path>, after: seq<Path>)
    requires node.PythonModuleNode? && IsInitModule(node.location.filePath)
    requires IsDir(fs, Parent(node.location.filePath))
    requires Listing(fs, Parent(node.location.filePath)) == before + [node.location.filePath] + after
    requires node.location.filePath !in before && node.location.filePath !in after
    ensures var siblings := before + after;
      && (ChildNodes(fs, node).Ok? <==> forall k :: 0 <= k < |siblings| ==> ClassifyPath(fs, siblings[k]).Ok?)
      && (ChildNodes(fs, node).Ok? ==>
            && |ChildNodes(fs, node).value| == |siblings|
            && forall k :: 0 <= k < |siblings| ==> ClassifyPath(fs, siblings[k]) == Ok(ChildNodes(fs, node).value[k]))
  {
    EntriesExceptOnce(before, node.location.filePath, after);
  }

  /**
   * An "__init__.py" module's children are the nodes of its siblings: every other
   * entry of its directory, and nothing else, whatever the listing holds.
   */
  lemma PackageChildrenAreSiblings(fs: FileSystem, node: Node, c: Node)
    requires node.PythonModuleNode? && IsInitModule(node.location.filePath)
    requires IsDir(fs, Parent(node.location.filePath))
    requires ChildNodes(fs, node).Ok?
    ensures c in ChildNodes(fs, node).value <==>
      exists s :: s in Listing(fs, Parent(node.location.filePath)) && s != node.location.filePath
                  && ClassifyPath(fs, s) == Ok(c)
  {
    var path := node.location.filePath;
    var siblings := EntriesExcept(Listing(fs, Parent(path)), path);
    var cs := ChildNodes(fs, node).value;
    if c in cs {
      var k :| 0 <= k < |cs| && cs[k] == c;
      assert siblings[k] in siblings;
    } else {
      forall s | s in Listing(fs, Parent(path)) && s != path
        ensures ClassifyPath(fs, s) != Ok(c)
      {
        assert s in siblings;
        var k :| 0 <= k < |siblings| && siblings[k] == s;
        assert cs[k] in cs;
      }
    }
  }
}
