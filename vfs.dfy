/** The slice of IntelliJ's virtual file system the core uses: directory identity, the `path` and
    `url` strings of a `VirtualFile`, and resolution of configured path strings against the
    project's base directories. */
module Vfs {
  import opened Wrappers

  /** A directory, identified by its path segments below the file-system root. */
  type Dir = seq<string>

  /** `VirtualFile.resolveFromRootOrRelative(path)` called on a base directory. It is a query on
      the file system at call time, so the model takes it as a parameter. */
  type Resolver = (Dir, string) -> Option<Dir>

  /** `VfsUtilCore.isAncestor(ancestor, file, strict = false)`: ancestor or the file itself. */
  predicate IsAncestorOrSelf(ancestor: Dir, file: Dir) {
    ancestor <= file
  }

  /** A directory whose segments contain no separator, as every real directory's do. */
  predicate WellFormed(d: Dir) {
    forall i :: 0 <= i < |d| ==> '/' !in d[i]
  }

  /** `VirtualFile.path`: every segment preceded by a separator (the root itself is written ""). */
  function Path(d: Dir): string {
    if d == [] then "" else "/" + d[0] + Path(d[1..])
  }

  /** `VirtualFile.url` of a local file. */
  function Url(d: Dir): string {
    "file://" + Path(d)
  }

  lemma PathStartsWithSeparator(d: Dir)
    requires d != []
    ensures |Path(d)| >= 1 + |d[0]| && Path(d)[0] == '/'
  {
  }

  /** In two equal paths of well-formed directories the first segments have equal length. */
  lemma {:induction false} FirstSegmentNotShorter(a: Dir, b: Dir)
    requires a != [] && b != []
    requires WellFormed(a) && WellFormed(b)
    requires Path(a) == Path(b)
    ensures |a[0]| >= |b[0]|
  {
    if |a[0]| < |b[0]| {
      var s, k := Path(a), 1 + |a[0]|;
      assert s == "/" + b[0] + Path(b[1..]);
      assert s[k] == b[0][|a[0]|];
      assert s[k] != '/' by { assert '/' !in b[0]; }
      var rest := a[1..];
      assert s == "/" + a[0] + Path(rest);
      if rest == [] {
        assert false;
      } else {
        PathStartsWithSeparator(rest);
        assert false;
      }
    }
  }

  /** Distinct well-formed directories have distinct paths. */
  lemma {:induction false} PathInjective(a: Dir, b: Dir)
    requires WellFormed(a) && WellFormed(b)
    requires Path(a) == Path(b)
    ensures a == b
    decreases |a|
  {
    if a == [] {
      if b != [] { PathStartsWithSeparator(b); }
    } else if b == [] {
      PathStartsWithSeparator(a);
    } else {
      FirstSegmentNotShorter(a, b);
      FirstSegmentNotShorter(b, a);
      var s, k := Path(a), 1 + |a[0]|;
      assert s == "/" + a[0] + Path(a[1..]);
      assert s == "/" + b[0] + Path(b[1..]);
      assert a[0] == s[1..k] == b[0];
      assert Path(a[1..]) == s[k..] == Path(b[1..]);
      assert WellFormed(a[1..]) by {
        forall i | 0 <= i < |a[1..]| ensures '/' !in a[1..][i] { assert a[1..][i] == a[i + 1]; }
      }
      assert WellFormed(b[1..]) by {
        forall i | 0 <= i < |b[1..]| ensures '/' !in b[1..][i] { assert b[1..][i] == b[i + 1]; }
      }
      PathInjective(a[1..], b[1..]);
      assert a == [a[0]] + a[1..] && b == [b[0]] + b[1..];
    }
  }

  /** Distinct well-formed directories have distinct URLs, so a content entry's exclude list,
      which is keyed by URL, tells well-formed directories apart. */
  lemma UrlInjective(a: Dir, b: Dir)
    requires WellFormed(a) && WellFormed(b)
    requires Url(a) == Url(b)
    ensures a == b
  {
    assert Path(a) == Url(a)[7..] == Url(b)[7..] == Path(b);
    PathInjective(a, b);
  }

  /** `paths.flatMap { p -> bases.map { it.resolveFromRootOrRelative(p) } }.filterNotNull().toSet()`:
      every directory that some path resolves to under some base directory. */
  function ResolveEach(paths: set<string>, bases: seq<Dir>, resolve: Resolver): (r: set<Dir>)
    ensures forall d :: d in r <==> exists p, b :: p in paths && b in bases && resolve(b, p) == Some(d)
  {
    set p, b | p in paths && b in bases && resolve(b, p).Some? :: resolve(b, p).value
  }

  /** Resolution distributes over a union of path sets. */
  lemma ResolveEachUnion(p1: set<string>, p2: set<string>, bases: seq<Dir>, resolve: Resolver)
    ensures ResolveEach(p1 + p2, bases, resolve) == ResolveEach(p1, bases, resolve) + ResolveEach(p2, bases, resolve)
  {
  }

  lemma ResolveEachSingle(p: string, base: Dir, resolve: Resolver)
    ensures ResolveEach({p}, [base], resolve) == if resolve(base, p).Some? then {resolve(base, p).value} else {}
  {
    var one := ResolveEach({p}, [base], resolve);
    forall d ensures d in one <==> resolve(base, p) == Some(d) {
      if resolve(base, p) == Some(d) { assert p in {p} && base in [base]; }
    }
  }

  /** With a single base directory no path contributes more than one directory. */
  lemma {:induction false} ResolveEachAtMostOnePerPath(paths: set<string>, base: Dir, resolve: Resolver)
    ensures |ResolveEach(paths, [base], resolve)| <= |paths|
    decreases |paths|
  {
    if paths != {} {
      var p :| p in paths;
      var rest := paths - {p};
      ResolveEachUnion(rest, {p}, [base], resolve);
      ResolveEachAtMostOnePerPath(rest, base, resolve);
      ResolveEachSingle(p, base, resolve);
      assert paths == rest + {p};
    }
  }
}
