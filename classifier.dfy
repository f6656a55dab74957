/**
 * Path classification: is_path_python_package, node_from_module_path (with its
 * climb through ancestor packages) and node_from_path (with its symlink loop).
 */
module Classifier {
  import opened Wrappers
  import opened Paths
  import opened FileSystems
  import opened Nodes

  /** is_path_python_package: a directory, following links, in which "__init__.py" exists. */
  predicate IsPythonPackage(fs: FileSystem, p: Path) {
    IsDir(fs, p) && Exists(fs, p + [InitFileName])
  }

  /** Where a module is imported from, and its dotted parts below that directory. */
  datatype ImportSite = ImportSite(importRoot: Path, parts: seq<string>)

  /**
   * The climb of node_from_module_path: while the import root is a package, its name
   * goes in front of the parts and the root moves up to its parent. The climb stops
   * at the filesystem root, which the source's loop does not (see AsWrittenClimb).
   */
  function Climb(fs: FileSystem, site: ImportSite): ImportSite
    decreases |site.importRoot|
  {
    var root := site.importRoot;
    if root != [] && IsPythonPackage(fs, root) then
      Climb(fs, ImportSite(Parent(root), [Name(root)] + site.parts))
    else site
  }

  /**
   * The climb from dir ends at an ancestor of dir that is not a package (or is the
   * filesystem root), every directory strictly below it down to dir is a package,
   * and the names of those packages, outermost first, are put in front of the parts.
   */
  lemma {:induction false} ClimbFindsImportRoot(fs: FileSystem, dir: Path, parts: seq<string>)
    ensures var s := Climb(fs, ImportSite(dir, parts));
      && |s.importRoot| <= |dir|
      && s.importRoot == dir[..|s.importRoot|]
      && s.parts == dir[|s.importRoot|..] + parts
      && (forall k :: |s.importRoot| < k <= |dir| ==> IsPythonPackage(fs, dir[..k]))
      && (s.importRoot == [] || !IsPythonPackage(fs, s.importRoot))
    decreases |dir|
  {
    if dir != [] && IsPythonPackage(fs, dir) {
      var up := Parent(dir);
      ClimbFindsImportRoot(fs, up, [Name(dir)] + parts);
      var s := Climb(fs, ImportSite(dir, parts));
      assert s == Climb(fs, ImportSite(up, [Name(dir)] + parts));
      assert dir == up + [Name(dir)];
      assert dir[|s.importRoot|..] == up[|s.importRoot|..] + [Name(dir)];
      forall k | |s.importRoot| < k <= |dir|
        ensures IsPythonPackage(fs, dir[..k])
      {
        if k < |dir| {
          assert dir[..k] == up[..k];
        } else {
          assert dir[..k] == dir;
        }
      }
    }
  }

  /** The parts and names node_from_module_path starts its climb with. */
  function InitialParts(path: Path): seq<string> {
    if IsInitModule(path) then [] else [Stem(Name(path))]
  }

  /** An "__init__.py" module is named after its directory, any other after its stem and file name. */
  function ModuleName(path: Path): NodeName {
    if IsInitModule(path) then NodeName(Name(Parent(path)), Name(Parent(path)), [])
    else NodeName(Stem(Name(path)), Name(path), [])
  }

  /** The node node_from_module_path builds for path, or the error it raises. */
  function ModuleNodeOf(fs: FileSystem, path: Path): Result<Node, Error> {
    if !IsPythonModule(path) then Err(PathIsNotPythonModule(path))
    else
      var site := Climb(fs, ImportSite(Parent(path), InitialParts(path)));
      Ok(PythonModuleNode(
           PythonModuleLocation(path, site.importRoot, DotPath(site.parts)),
           ModuleName(path)))
  }

  /** node_from_module_path. */
  method NodeFromModulePath(fs: FileSystem, path: Path) returns (r: Result<Node, Error>)
    ensures r == ModuleNodeOf(fs, path)
  {
    if !IsPythonModule(path) {
      return Err(PathIsNotPythonModule(path));
    }
    var importRoot := Parent(path);
    var parts: seq<string>;
    var shortName: string;
    var longName: string;
    if IsInitModule(path) {
      parts := [];
      shortName := Name(Parent(path));
      longName := Name(Parent(path));
    } else {
      parts := [Stem(Name(path))];
      shortName := Stem(Name(path));
      longName := Name(path);
    }
    ghost var start := ImportSite(importRoot, parts);
    while importRoot != [] && IsPythonPackage(fs, importRoot)
      invariant Climb(fs, ImportSite(importRoot, parts)) == Climb(fs, start)
      decreases |importRoot|
    {
      parts := [Name(importRoot)] + parts;
      importRoot := Parent(importRoot);
    }
    r := Ok(PythonModuleNode(
              PythonModuleLocation(path, importRoot, DotPath(parts)),
              NodeName(shortName, longName, [])));
  }

  /**
   * node_from_module_path fails exactly on paths without the ".py" suffix. Otherwise
   * the module's import path is the names of the maximal run of package directories
   * above it, outermost first, followed by its stem (none for "__init__.py"); its
   * import root is the directory just above that run; an "__init__.py" module is
   * named after its directory, any other after its stem and file name.
   */
  lemma ModuleNodeNaming(fs: FileSystem, path: Path)
    ensures ModuleNodeOf(fs, path).Err? <==> !IsPythonModule(path)
    ensures !IsPythonModule(path) ==> ModuleNodeOf(fs, path) == Err(PathIsNotPythonModule(path))
    ensures IsPythonModule(path) ==>
      var n := ModuleNodeOf(fs, path).value;
      var dir := Parent(path);
      var root := n.location.importRoot;
      && n.PythonModuleNode? && n.location.PythonModuleLocation?
      && n.location.filePath == path
      && |root| <= |dir| && root == dir[..|root|]
      && (forall k :: |root| < k <= |dir| ==> IsPythonPackage(fs, dir[..k]))
      && (root == [] || !IsPythonPackage(fs, root))
      && (IsInitModule(path) ==>
            n.location.importPath.parts == dir[|root|..]
            && n.name == NodeName(Name(dir), Name(dir), []))
      && (!IsInitModule(path) ==>
            n.location.importPath.parts == dir[|root|..] + [Stem(Name(path))]
            && n.name == NodeName(Stem(Name(path)), Name(path), []))
  {
    ClimbFindsImportRoot(fs, Parent(path), InitialParts(path));
  }

  /** What node_from_path does with a path once its links are resolved to q. */
  function ClassifyResolved(fs: FileSystem, q: Path): Result<Node, Error> {
    if !IsFile(fs, q) && !IsDir(fs, q) then Err(PathIsNotFileOrDirectory(q))
    else if IsDir(fs, q) then
      if IsPythonPackage(fs, q) then ModuleNodeOf(fs, q + [InitFileName])
      else Ok(FilesystemNode(FilesystemLocation(q), NodeName(Name(q), Name(q), [])))
    else if IsPythonModule(q) then ModuleNodeOf(fs, q)
    else Ok(FilesystemNode(FilesystemLocation(q), NodeName(Stem(Name(q)), Name(q), [])))
  }

  /** The node node_from_path builds for path, or the error it raises. */
  function ClassifyPath(fs: FileSystem, path: Path): Result<Node, Error> {
    match Resolve(fs, path)
    case None => Err(PathDoesNotExist(path))
    case Some(q) => ClassifyResolved(fs, q)
  }

  /** node_from_path. */
  method NodeFromPath(fs: FileSystem, path: Path) returns (r: Result<Node, Error>)
    ensures r == ClassifyPath(fs, path)
  {
    if !Exists(fs, path) {
      return Err(PathDoesNotExist(path));
    }
    var p := path;
    ghost var followed: set<Path> := {};
    while IsSymlink(fs, p)
      invariant ResolveFrom(fs, p, followed) == Resolve(fs, path)
      decreases fs.Keys - followed
    {
      followed := followed + {p};
      p := fs[p].target;
    }
    if !IsFile(fs, p) && !IsDir(fs, p) {
      return Err(PathIsNotFileOrDirectory(p));
    }
    if IsDir(fs, p) {
      if IsPythonPackage(fs, p) {
        r := NodeFromModulePath(fs, p + [InitFileName]);
        return;
      }
      return Ok(FilesystemNode(FilesystemLocation(p), NodeName(Name(p), Name(p), [])));
    }
    if IsPythonModule(p) {
      r := NodeFromModulePath(fs, p);
      return;
    }
    return Ok(FilesystemNode(FilesystemLocation(p), NodeName(Stem(Name(p)), Name(p), [])));
  }

  /**
   * node_from_path fails with PathDoesNotExist on a path whose link chain is dangling
   * or a cycle, then with PathIsNotFileOrDirectory on a target that is neither a file
   * nor a directory, and in no other case: in particular it never lets the defensive
   * PathIsNotPythonModule escape.
   */
  lemma ClassifyPathErrors(fs: FileSystem, path: Path)
    ensures !Exists(fs, path) ==> ClassifyPath(fs, path) == Err(PathDoesNotExist(path))
    ensures Exists(fs, path) ==>
      var q := Resolve(fs, path).value;
      && (fs[q].Other? ==> ClassifyPath(fs, path) == Err(PathIsNotFileOrDirectory(q)))
      && (!fs[q].Other? ==> ClassifyPath(fs, path).Ok?)
  {
    if Exists(fs, path) {
      var q := Resolve(fs, path).value;
      ResolvedIsFixed(fs, path);
      if IsPythonPackage(fs, q) {
        InitIsPythonModule(q + [InitFileName]);
      }
    }
  }

  /**
   * The kind and name of the node for an existing path, by what its link chain
   * reaches: a package directory gives the module node of its "__init__.py", named
   * after the directory, whose import path ends at the directory; any other directory
   * a filesystem node named after it; a ".py" file a module node; any other file a
   * filesystem node with its stem as short name.
   */
  lemma ClassifyPathKinds(fs: FileSystem, path: Path)
    requires Exists(fs, path)
    ensures var q := Resolve(fs, path).value;
      var r := ClassifyPath(fs, path);
      && (IsDir(fs, q) && IsPythonPackage(fs, q) ==>
            && r.Ok? && r.value.PythonModuleNode?
            && r.value.location.filePath == q + [InitFileName]
            && r.value.name == NodeName(Name(q), Name(q), [])
            && |r.value.location.importRoot| <= |q|
            && r.value.location.importPath.parts == q[|r.value.location.importRoot|..])
      && (IsDir(fs, q) && !IsPythonPackage(fs, q) ==>
            r == Ok(FilesystemNode(FilesystemLocation(q), NodeName(Name(q), Name(q), []))))
      && (IsFile(fs, q) && IsPythonModule(q) ==>
            && r.Ok? && r.value.PythonModuleNode?
            && r.value.location.filePath == q
            && r.value.name == ModuleName(q))
      && (IsFile(fs, q) && !IsPythonModule(q) ==>
            r == Ok(FilesystemNode(FilesystemLocation(q), NodeName(Stem(Name(q)), Name(q), []))))
  {
    var q := Resolve(fs, path).value;
    ResolvedIsFixed(fs, path);
    if IsPythonPackage(fs, q) {
      var init := q + [InitFileName];
      InitIsPythonModule(init);
      ModuleNodeNaming(fs, init);
      assert Parent(init) == q;
    }
    if IsPythonModule(q) {
      ModuleNodeNaming(fs, q);
    }
  }

  /**
   * A symbolic link gives the same node as its target, also when its chain runs back
   * into an ancestor, and fails exactly when the target fails.
   */
  lemma LinkGivesTargetNode(fs: FileSystem, link: Path)
    requires IsSymlink(fs, link)
    ensures ClassifyPath(fs, link).Ok? <==> ClassifyPath(fs, fs[link].target).Ok?
    ensures ClassifyPath(fs, link).Ok? ==> ClassifyPath(fs, link) == ClassifyPath(fs, fs[link].target)
  {
    ResolveThroughLink(fs, link);
  }

  /**
   * A node built from a path sits at the path's resolved target (or that directory's
   * "__init__.py"), never at a link that was followed to reach it; a filesystem node
   * never sits at a link at all.
   */
  lemma NodeSitsAtResolvedTarget(fs: FileSystem, path: Path)
    requires ClassifyPath(fs, path).Ok?
    ensures Exists(fs, path)
    ensures var q := Resolve(fs, path).value;
      var n := ClassifyPath(fs, path).value;
      && !IsSymlink(fs, q)
      && (n.location.filePath == q || n.location.filePath == q + [InitFileName])
      && (n.FilesystemNode? ==> n.location.filePath == q)
  {
    var q := Resolve(fs, path).value;
    ResolvedIsFixed(fs, path);
    ModuleNodeNaming(fs, q);
    ModuleNodeNaming(fs, q + [InitFileName]);
  }

  // The climb loop as node_from_module_path writes it, with no stop at the root.

  /** One pass of the source's climb loop body, run only while its guard holds. */
  function AsWrittenClimbStep(fs: FileSystem, site: ImportSite): ImportSite {
    if IsPythonPackage(fs, site.importRoot) then
      ImportSite(Parent(site.importRoot), [Name(site.importRoot)] + site.parts)
    else site
  }

  /** The source's climb loop after n passes. */
  function AsWrittenClimb(fs: FileSystem, site: ImportSite, n: nat): ImportSite
    decreases n
  {
    if n == 0 then site else AsWrittenClimb(fs, AsWrittenClimbStep(fs, site), n - 1)
  }

  /** A filesystem whose root directory holds an "__init__.py" file. */
  const RootPackage: FileSystem := map[[] := Dir([InitFileName]), [InitFileName] := File]

  /**
   * On "/__init__.py" under a root that is itself a package, the source's loop guard
   * still holds after any number of passes while the parts keep growing: the root is
   * its own parent, so the loop never exits.
   */
  lemma {:induction false} AsWrittenClimbNeverExits(n: nat)
    ensures var s := AsWrittenClimb(RootPackage, ImportSite([], []), n);
      s.importRoot == [] && IsPythonPackage(RootPackage, s.importRoot) && |s.parts| == n
  {
    assert IsPythonPackage(RootPackage, []) by {
      var init: Path := [InitFileName];
      assert [] + [InitFileName] == init;
      assert init in RootPackage && RootPackage[init] == File;
      assert Resolve(RootPackage, []) == Some([]);
      assert Resolve(RootPackage, init) == Some(init);
    }
    AsWrittenClimbRootPackage(n, []);
  }

  lemma {:induction false} AsWrittenClimbRootPackage(n: nat, parts: seq<string>)
    requires IsPythonPackage(RootPackage, [])
    ensures var s := AsWrittenClimb(RootPackage, ImportSite([], parts), n);
      s.importRoot == [] && |s.parts| == |parts| + n
    decreases n
  {
    if n > 0 {
      assert AsWrittenClimbStep(RootPackage, ImportSite([], parts)) == ImportSite([], [""] + parts);
      AsWrittenClimbRootPackage(n - 1, [""] + parts);
    }
  }
}
