/** `PluginSettingsState`: the persisted active profile name and the persisted excluded
    directories (stored as path strings), with the modification counter the persistence
    framework watches. */
module Settings {
  import opened Wrappers
  import opened Vfs

  /** `files.map { it.path }.toMutableSet()`. */
  function PathsOf(files: set<Dir>): set<string> {
    set f | f in files :: Path(f)
  }

  class PluginSettingsState {
    var activeProfileName: Option<string>
    var excludedPaths: set<string>
    /** The `BaseState` modification counter, counting the explicit increments. */
    var modificationCount: nat

    constructor ()
      ensures activeProfileName == None && excludedPaths == {} && modificationCount == 0
    {
      activeProfileName := None;
      excludedPaths := {};
      modificationCount := 0;
    }

    /** `updateActiveProfileName`: stores the name (null included) and bumps the counter. */
    method UpdateActiveProfileName(name: Option<string>)
      modifies this
      ensures activeProfileName == name
      ensures excludedPaths == old(excludedPaths)
      ensures modificationCount == old(modificationCount) + 1
    {
      activeProfileName := name;
      modificationCount := modificationCount + 1;
    }

    /** `updateExcludedPaths`: replaces (does not merge into) the stored paths with the paths of
        the given directories and bumps the counter. */
    method UpdateExcludedPaths(files: set<Dir>)
      modifies this
      ensures excludedPaths == PathsOf(files)
      ensures activeProfileName == old(activeProfileName)
      ensures modificationCount == old(modificationCount) + 1
    {
      excludedPaths := PathsOf(files);
      modificationCount := modificationCount + 1;
    }

    /** `resolveExcludedPaths`: every directory some stored path resolves to under some base
        directory. It only reads the state. */
    function ResolveExcludedPaths(bases: seq<Dir>, resolve: Resolver): (r: set<Dir>)
      reads this
      ensures forall d :: d in r <==>
        exists s, b :: s in excludedPaths && b in bases && resolve(b, s) == Some(d)
    {
      ResolveEach(excludedPaths, bases, resolve)
    }
  }

  /** The file system still holds the given directories, so that their absolute paths resolve back
      to them from every base directory. */
  predicate ResolvesToItself(bases: seq<Dir>, resolve: Resolver, dirs: set<Dir>) {
    forall b, d :: b in bases && d in dirs ==> resolve(b, Path(d)) == Some(d)
  }

  /** Storing directories and resolving the stored paths again gives back the same directories,
      as long as they still exist and there is a base directory to resolve from. */
  lemma StoredPathsResolveBack(files: set<Dir>, bases: seq<Dir>, resolve: Resolver)
    requires ResolvesToItself(bases, resolve, files)
    requires |bases| > 0 || files == {}
    ensures ResolveEach(PathsOf(files), bases, resolve) == files
  {
    var back := ResolveEach(PathsOf(files), bases, resolve);
    forall d | d in back ensures d in files {
      var s, b :| s in PathsOf(files) && b in bases && resolve(b, s) == Some(d);
      var f :| f in files && s == Path(f);
    }
    forall f | f in files ensures f in back {
      assert Path(f) in PathsOf(files) && bases[0] in bases;
    }
  }

  /** A stored path that resolves under no base directory contributes nothing: the result is the
      same as if it had not been stored. */
  lemma UnresolvableStoredPathVanishes(stored: set<string>, s: string, bases: seq<Dir>, resolve: Resolver)
    requires s in stored
    requires forall b :: b in bases ==> resolve(b, s).None?
    ensures ResolveEach(stored, bases, resolve) == ResolveEach(stored - {s}, bases, resolve)
  {
    ResolveEachUnion(stored - {s}, {s}, bases, resolve);
    assert stored == (stored - {s}) + {s};
    assert ResolveEach({s}, bases, resolve) == {};
  }
}
