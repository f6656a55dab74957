/**
 * A read-only filesystem as a value, standing in for the pathlib calls the graph
 * builder makes (exists, is_symlink, resolve, is_dir, is_file, iterdir). The model
 * assumes every key is a canonical absolute path, one whose proper prefixes are no
 * symbolic links; a path through a linked directory is simply not a key.
 */
module FileSystems {
  import opened Wrappers
  import opened Paths

  /** What one path holds. A directory lists its entry names in the platform's order. */
  datatype Entry = File | Dir(listing: seq<string>) | Symlink(target: Path) | Other

  type FileSystem = map<Path, Entry>

  /**
   * Follows symbolic links from p. `seen` holds the links already followed; meeting
   * one again is a cycle, which, like a dangling link, resolves to nothing.
   */
  function ResolveFrom(fs: FileSystem, p: Path, seen: set<Path>): (r: Option<Path>)
    ensures r.Some? ==> r.value in fs && !fs[r.value].Symlink?
    ensures p !in fs ==> r == None
    ensures p in fs && !fs[p].Symlink? ==> r == Some(p)
    decreases fs.Keys - seen
  {
    if p !in fs then None
    else match fs[p]
      case Symlink(t) => if p in seen then None else ResolveFrom(fs, t, seen + {p})
      case _ => Some(p)
  }

  /** Path.resolve() on a path that exists: the first entry of its link chain that is no link. */
  function Resolve(fs: FileSystem, p: Path): Option<Path> {
    ResolveFrom(fs, p, {})
  }

  /** Path.exists(): true when the link chain from p ends in an entry. */
  predicate Exists(fs: FileSystem, p: Path) {
    Resolve(fs, p).Some?
  }

  /** Path.is_symlink(): p itself is a link (its target need not exist). */
  predicate IsSymlink(fs: FileSystem, p: Path) {
    p in fs && fs[p].Symlink?
  }

  /** Path.is_dir(), following links. */
  predicate IsDir(fs: FileSystem, p: Path) {
    var r := Resolve(fs, p);
    r.Some? && fs[r.value].Dir?
  }

  /** Path.is_file(), following links. */
  predicate IsFile(fs: FileSystem, p: Path) {
    var r := Resolve(fs, p);
    r.Some? && fs[r.value].File?
  }

  /** Path.iterdir(): the entries of the directory p, each as p / name, in listing order. */
  function Listing(fs: FileSystem, p: Path): seq<Path>
    requires IsDir(fs, p)
  {
    var names := fs[Resolve(fs, p).value].listing;
    seq(|names|, k requires 0 <= k < |names| => p + [names[k]])
  }

  /** The path reached from p after following exactly k links, or None if the chain stops sooner. */
  function Follow(fs: FileSystem, p: Path, k: nat): Option<Path>
    decreases k
  {
    if k == 0 then Some(p)
    else if IsSymlink(fs, p) then Follow(fs, fs[p].target, k - 1)
    else None
  }

  /** One more link at the end of a chain. */
  lemma {:induction false} FollowOneMore(fs: FileSystem, p: Path, k: nat, x: Path)
    requires Follow(fs, p, k) == Some(x) && IsSymlink(fs, x)
    ensures Follow(fs, p, k + 1) == Some(fs[x].target)
    decreases k
  {
    if k > 0 {
      FollowOneMore(fs, fs[p].target, k - 1, x);
    }
  }

  /** s is a link whose chain reaches p after one or more steps. */
  ghost predicate LeadsTo(fs: FileSystem, s: Path, p: Path) {
    IsSymlink(fs, s) && exists k :: 1 <= k && Follow(fs, s, k) == Some(p)
  }

  /** A chain that runs into a link already followed resolves to nothing. */
  lemma {:induction false} ChainIntoSeenFails(fs: FileSystem, p: Path, k: nat, x: Path, seen: set<Path>)
    requires Follow(fs, p, k) == Some(x) && IsSymlink(fs, x) && x in seen
    ensures ResolveFrom(fs, p, seen) == None
    decreases k
  {
    if k > 0 && p !in seen {
      ChainIntoSeenFails(fs, fs[p].target, k - 1, x, seen + {p});
    }
  }

  /**
   * Links that each lead to p in one or more steps make no difference to resolving p:
   * if the chain from p meets one of them, it meets p again and is a cycle anyway.
   */
  lemma {:induction false} LeadingLinksIrrelevant(fs: FileSystem, p: Path, small: set<Path>, big: set<Path>)
    requires small <= big
    requires forall s :: s in big ==> LeadsTo(fs, s, p)
    ensures ResolveFrom(fs, p, small) == ResolveFrom(fs, p, big)
    decreases fs.Keys - small
  {
    if IsSymlink(fs, p) && p !in small {
      var t := fs[p].target;
      if p in big {
        var k :| 1 <= k && Follow(fs, p, k) == Some(p);
        ChainIntoSeenFails(fs, t, k - 1, p, small + {p});
      } else {
        forall s | s in big + {p}
          ensures LeadsTo(fs, s, t)
        {
          if s == p {
            assert Follow(fs, s, 1) == Some(t);
          } else {
            var k :| 1 <= k && Follow(fs, s, k) == Some(p);
            FollowOneMore(fs, s, k, p);
            assert Follow(fs, s, k + 1) == Some(t);
          }
        }
        LeadingLinksIrrelevant(fs, t, small + {p}, big + {p});
      }
    }
  }

  /** A link resolves exactly as its target does, including when its chain is a cycle. */
  lemma ResolveThroughLink(fs: FileSystem, p: Path)
    requires IsSymlink(fs, p)
    ensures Resolve(fs, p) == Resolve(fs, fs[p].target)
  {
    var t := fs[p].target;
    assert Follow(fs, p, 1) == Some(t);
    LeadingLinksIrrelevant(fs, t, {}, {p});
    assert {} + {p} == {p};
  }

  /** Resolution only ever returns an entry on p's link chain. */
  lemma {:induction false} ResolveFromOnChain(fs: FileSystem, p: Path, seen: set<Path>)
    requires ResolveFrom(fs, p, seen).Some?
    ensures exists k: nat :: Follow(fs, p, k) == ResolveFrom(fs, p, seen)
    decreases fs.Keys - seen
  {
    if IsSymlink(fs, p) {
      var t := fs[p].target;
      ResolveFromOnChain(fs, t, seen + {p});
      var k: nat :| Follow(fs, t, k) == ResolveFrom(fs, t, seen + {p});
      assert Follow(fs, p, k + 1) == Follow(fs, t, k);
    } else {
      assert Follow(fs, p, 0) == Some(p);
    }
  }

  /** A chain that reaches an entry that is no link resolves to that entry. */
  lemma {:induction false} ChainEndResolves(fs: FileSystem, p: Path, k: nat, x: Path)
    requires Follow(fs, p, k) == Some(x) && x in fs && !fs[x].Symlink?
    ensures Resolve(fs, p) == Some(x)
    decreases k
  {
    if k > 0 {
      ResolveThroughLink(fs, p);
      ChainEndResolves(fs, fs[p].target, k - 1, x);
    }
  }

  /**
   * Path.resolve() on an existing path gives exactly the entry that ends its link
   * chain: the chain reaches x, which is no link, if and only if p resolves to x.
   */
  lemma ResolveIsChainEnd(fs: FileSystem, p: Path, x: Path)
    ensures Resolve(fs, p) == Some(x) <==>
      x in fs && !fs[x].Symlink? && exists k: nat :: Follow(fs, p, k) == Some(x)
  {
    if Resolve(fs, p) == Some(x) {
      ResolveFromOnChain(fs, p, {});
    }
    if x in fs && !fs[x].Symlink? && exists k: nat :: Follow(fs, p, k) == Some(x) {
      var k: nat :| Follow(fs, p, k) == Some(x);
      ChainEndResolves(fs, p, k, x);
    }
  }

  /** A path that exists resolves to an entry that resolves to itself. */
  lemma ResolvedIsFixed(fs: FileSystem, p: Path)
    requires Exists(fs, p)
    ensures Resolve(fs, Resolve(fs, p).value) == Resolve(fs, p)
    ensures !IsSymlink(fs, Resolve(fs, p).value)
  {
  }
}
