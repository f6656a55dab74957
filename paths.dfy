/**
 * Pure path arithmetic in the manner of pathlib's PurePath. A path is the sequence
 * of its name segments below the filesystem root, so the root itself is [].
 */
module Paths {
  type Path = seq<string>

  /** PurePath.name: the last segment; the root has the empty name. */
  function Name(p: Path): string {
    if p == [] then "" else p[|p| - 1]
  }

  /** PurePath.parent: the path without its last segment; the root is its own parent. */
  function Parent(p: Path): (r: Path)
    ensures |r| == if p == [] then 0 else |p| - 1
    ensures r == p[..|r|]
  {
    if p == [] then [] else p[..|p| - 1]
  }

  /** str.rfind for one character: the index of the last occurrence of c, or -1. */
  function LastIndexOf(s: string, c: char): (i: int)
    ensures -1 <= i < |s|
    ensures i == -1 ==> c !in s
    ensures 0 <= i ==> s[i] == c && c !in s[i + 1..]
  {
    if s == [] then -1
    else if s[|s| - 1] == c then |s| - 1
    else
      var i := LastIndexOf(s[..|s| - 1], c);
      assert s[i + 1..] == s[..|s| - 1][i + 1..] + [s[|s| - 1]];
      i
  }

  /**
   * PurePath.suffix: from the last dot on, unless that dot leads the name or ends it.
   * Together with Stem it splits the name without losing anything.
   */
  function Suffix(name: string): (r: string)
    ensures Stem(name) + r == name
    ensures r == "" || (|r| >= 2 && r[0] == '.' && '.' !in r[1..])
  {
    var i := LastIndexOf(name, '.');
    if 0 < i < |name| - 1 then name[i..] else ""
  }

  /** PurePath.stem: the name without its suffix. */
  function Stem(name: string): string {
    var i := LastIndexOf(name, '.');
    if 0 < i < |name| - 1 then name[..i] else name
  }

  const InitFileName: string := "__init__.py"

  /** is_path_python_module: the path's suffix is ".py". */
  predicate IsPythonModule(p: Path) {
    Suffix(Name(p)) == ".py"
  }

  /** is_path_init_module: the path's name is "__init__.py". */
  predicate IsInitModule(p: Path) {
    Name(p) == InitFileName
  }

  /**
   * A path is a Python module exactly when its name is at least one character
   * followed by ".py"; a bare ".py" (a leading dot) is not one.
   */
  lemma PythonModuleByName(p: Path)
    ensures IsPythonModule(p) <==> |Name(p)| >= 4 && Name(p)[|Name(p)| - 3..] == ".py"
  {
    var n := Name(p);
    var i := LastIndexOf(n, '.');
    if |n| >= 4 && n[|n| - 3..] == ".py" {
      assert n[|n| - 3] == '.' && n[|n| - 2] == 'p' && n[|n| - 1] == 'y';
      assert i == |n| - 3;
    }
  }

  /** An "__init__.py" file is a Python module, and its stem is "__init__". */
  lemma InitIsPythonModule(p: Path)
    requires IsInitModule(p)
    ensures IsPythonModule(p)
    ensures Stem(Name(p)) == "__init__"
  {
    PythonModuleByName(p);
    var n := Name(p);
    assert LastIndexOf(n, '.') == 8;
  }
}
