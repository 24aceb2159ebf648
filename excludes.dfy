/** `ExcludeService`: adding or removing directories in the exclude lists of a module's content
    entries. A content entry takes a directory when the entry's root is that directory or one of its
    ancestors; the changes go to a modifiable copy of the module's root model that is committed
    once at the end. */
module Excludes {
  import opened Wrappers
  import opened Vfs

  /** A content entry: its root (None when `entry.file` is null) and the URLs of its exclude
      folders. */
  datatype ContentEntry = ContentEntry(file: Option<Dir>, excludeFolderUrls: set<string>)

  /** A module and its committed content entries. */
  class Module {
    var contentEntries: seq<ContentEntry>

    constructor (entries: seq<ContentEntry>)
      ensures contentEntries == entries
    {
      contentEntries := entries;
    }
  }

  /** The processor passed to `process`: `addExcludeFolder(path)` or `removeExcludeFolder(path.url)`. */
  datatype Operation = AddExclude | RemoveExclude

  /** One processor call on one entry and one path. */
  function Apply(e: ContentEntry, path: Dir, op: Operation): ContentEntry {
    match op
    case AddExclude => e.(excludeFolderUrls := e.excludeFolderUrls + {Url(path)})
    case RemoveExclude => e.(excludeFolderUrls := e.excludeFolderUrls - {Url(path)})
  }

  /** The URLs of the paths that lie at or below `root`. */
  function UrlsUnder(root: Dir, paths: set<Dir>): set<string> {
    set p | p in paths && IsAncestorOrSelf(root, p) :: Url(p)
  }

  /** An entry after every path has been offered to it. */
  function ProcessEntry(e: ContentEntry, paths: set<Dir>, op: Operation): ContentEntry {
    if e.file.None? then e
    else
      var urls := UrlsUnder(e.file.value, paths);
      match op
      case AddExclude => e.(excludeFolderUrls := e.excludeFolderUrls + urls)
      case RemoveExclude => e.(excludeFolderUrls := e.excludeFolderUrls - urls)
  }

  /** The content entries after `process`. */
  function Processed(entries: seq<ContentEntry>, paths: set<Dir>, op: Operation): (r: seq<ContentEntry>)
    ensures |r| == |entries|
    ensures forall i :: 0 <= i < |entries| ==> r[i] == ProcessEntry(entries[i], paths, op)
  {
    seq(|entries|, i requires 0 <= i < |entries| => ProcessEntry(entries[i], paths, op))
  }

  /** Offering one more path to an entry. */
  lemma ProcessEntryStep(e: ContentEntry, done: set<Dir>, path: Dir, op: Operation)
    ensures ProcessEntry(e, done + {path}, op) ==
      var before := ProcessEntry(e, done, op);
      if e.file.Some? && IsAncestorOrSelf(e.file.value, path) then Apply(before, path, op) else before
  {
    if e.file.Some? {
      var root := e.file.value;
      assert UrlsUnder(root, done + {path}) ==
        UrlsUnder(root, done) + (if IsAncestorOrSelf(root, path) then {Url(path)} else {});
    }
  }

  /** `process`: for every entry and every path, call the processor when the entry has a root and
      the root is the path or an ancestor of it; then commit. */
  method Process(m: Module, paths: set<Dir>, op: Operation)
    modifies m
    ensures m.contentEntries == Processed(old(m.contentEntries), paths, op)
  {
    var model := m.contentEntries;
    ghost var original := model;
    for i := 0 to |model|
      invariant |model| == |original|
      invariant forall j :: 0 <= j < i ==> model[j] == ProcessEntry(original[j], paths, op)
      invariant forall j :: i <= j < |model| ==> model[j] == original[j]
    {
      var remaining := paths;
      while remaining != {}
        invariant remaining <= paths
        invariant |model| == |original|
        invariant model[i] == ProcessEntry(original[i], paths - remaining, op)
        invariant forall j :: 0 <= j < i ==> model[j] == ProcessEntry(original[j], paths, op)
        invariant forall j :: i < j < |model| ==> model[j] == original[j]
        decreases remaining
      {
        var path :| path in remaining;
        ProcessEntryStep(original[i], paths - remaining, path, op);
        var entry := model[i];
        if entry.file.Some? && IsAncestorOrSelf(entry.file.value, path) {
          model := model[i := Apply(entry, path, op)];
        }
        assert paths - (remaining - {path}) == (paths - remaining) + {path};
        remaining := remaining - {path};
      }
      assert paths - remaining == paths;
    }
    m.contentEntries := model;
  }

  /** `excludePaths`. */
  method ExcludePaths(m: Module, paths: set<Dir>)
    modifies m
    ensures m.contentEntries == Processed(old(m.contentEntries), paths, AddExclude)
  {
    Process(m, paths, AddExclude);
  }

  /** `cancelExcludePaths`. */
  method CancelExcludePaths(m: Module, paths: set<Dir>)
    modifies m
    ensures m.contentEntries == Processed(old(m.contentEntries), paths, RemoveExclude)
  {
    Process(m, paths, RemoveExclude);
  }

  /** A URL of a well-formed directory lies among the URLs of well-formed paths exactly when that
      directory is one of the paths. */
  lemma UrlUnderIff(root: Dir, paths: set<Dir>, d: Dir)
    requires WellFormed(d) && forall p :: p in paths ==> WellFormed(p)
    ensures Url(d) in UrlsUnder(root, paths) <==> d in paths && IsAncestorOrSelf(root, d)
  {
    if Url(d) in UrlsUnder(root, paths) {
      var p :| p in paths && IsAncestorOrSelf(root, p) && Url(p) == Url(d);
      UrlInjective(p, d);
    }
  }

  /** `excludePaths` excludes a path in an entry exactly when the entry has a root at or above it,
      and leaves every other exclude folder as it was. */
  lemma ExcludeAddsExactly(entries: seq<ContentEntry>, paths: set<Dir>, i: nat, d: Dir)
    requires i < |entries|
    requires WellFormed(d) && forall p :: p in paths ==> WellFormed(p)
    ensures var e, e' := entries[i], Processed(entries, paths, AddExclude)[i];
      && e'.file == e.file
      && (Url(d) in e'.excludeFolderUrls <==>
          Url(d) in e.excludeFolderUrls || (d in paths && e.file.Some? && IsAncestorOrSelf(e.file.value, d)))
      && e.excludeFolderUrls <= e'.excludeFolderUrls
      && forall u :: (e.file.None? || u !in UrlsUnder(e.file.value, paths)) ==>
           (u in e'.excludeFolderUrls <==> u in e.excludeFolderUrls)
  {
    if entries[i].file.Some? { UrlUnderIff(entries[i].file.value, paths, d); }
  }

  /** `cancelExcludePaths` removes a path from exactly the same entries and keeps every other
      exclude folder in place. */
  lemma CancelRemovesExactly(entries: seq<ContentEntry>, paths: set<Dir>, i: nat, d: Dir)
    requires i < |entries|
    requires WellFormed(d) && forall p :: p in paths ==> WellFormed(p)
    ensures var e, e' := entries[i], Processed(entries, paths, RemoveExclude)[i];
      && e'.file == e.file
      && (Url(d) in e'.excludeFolderUrls <==>
          Url(d) in e.excludeFolderUrls && !(d in paths && e.file.Some? && IsAncestorOrSelf(e.file.value, d)))
      && e'.excludeFolderUrls <= e.excludeFolderUrls
      && forall u :: (e.file.None? || u !in UrlsUnder(e.file.value, paths)) ==>
           (u in e'.excludeFolderUrls <==> u in e.excludeFolderUrls)
  {
    if entries[i].file.Some? { UrlUnderIff(entries[i].file.value, paths, d); }
  }

  /** An entry without a root, or whose root lies above none of the paths, is left unchanged. */
  lemma EntriesOutsideUntouched(entries: seq<ContentEntry>, paths: set<Dir>, op: Operation, i: nat)
    requires i < |entries|
    requires entries[i].file.None? || forall p :: p in paths ==> !IsAncestorOrSelf(entries[i].file.value, p)
    ensures Processed(entries, paths, op)[i] == entries[i]
  {
    if entries[i].file.Some? {
      assert UrlsUnder(entries[i].file.value, paths) == {};
    }
  }

  /** Either operation with no path changes nothing, so the exclude folders keep their number. */
  lemma EmptySetChangesNothing(entries: seq<ContentEntry>, op: Operation)
    ensures Processed(entries, {}, op) == entries
  {
    forall i | 0 <= i < |entries| ensures Processed(entries, {}, op)[i] == entries[i] {
      EntriesOutsideUntouched(entries, {}, op, i);
    }
  }

  /** Excluding and then cancelling the same directories ends as if only the cancel had run, so the
      directories are not excluded afterwards. */
  lemma CancelUndoesExclude(entries: seq<ContentEntry>, paths: set<Dir>)
    ensures Processed(Processed(entries, paths, AddExclude), paths, RemoveExclude) == Processed(entries, paths, RemoveExclude)
  {
    var after := Processed(Processed(entries, paths, AddExclude), paths, RemoveExclude);
    forall i | 0 <= i < |entries| ensures after[i] == Processed(entries, paths, RemoveExclude)[i] {
      if entries[i].file.Some? {
        var urls := UrlsUnder(entries[i].file.value, paths);
        assert (entries[i].excludeFolderUrls + urls) - urls == entries[i].excludeFolderUrls - urls;
      }
    }
  }

  /** Excluding the same directories twice is excluding them once. */
  lemma ExcludeIdempotent(entries: seq<ContentEntry>, paths: set<Dir>)
    ensures Processed(Processed(entries, paths, AddExclude), paths, AddExclude) == Processed(entries, paths, AddExclude)
  {
    var twice := Processed(Processed(entries, paths, AddExclude), paths, AddExclude);
    forall i | 0 <= i < |entries| ensures twice[i] == Processed(entries, paths, AddExclude)[i] {
    }
  }

  /** What one module goes through in a reconciliation pass: the additions, then the removals. */
  function ApplyPlan(entries: seq<ContentEntry>, toExclude: set<Dir>, toCancel: set<Dir>): seq<ContentEntry> {
    Processed(Processed(entries, toExclude, AddExclude), toCancel, RemoveExclude)
  }

  /** Applying the differences between stored directories S and configured directories C to an
      entry whose exclude folders under its root mirror S makes them mirror C, and leaves every
      other exclude folder alone. */
  lemma ApplyPlanReachesTarget(e: ContentEntry, stored: set<Dir>, configured: set<Dir>)
    requires e.file.Some?
    requires forall d :: d in stored + configured ==> WellFormed(d)
    requires forall d :: d in stored + configured && IsAncestorOrSelf(e.file.value, d) ==>
      (Url(d) in e.excludeFolderUrls <==> d in stored)
    ensures var e' := ProcessEntry(ProcessEntry(e, configured - stored, AddExclude), stored - configured, RemoveExclude);
      && e'.file == e.file
      && (forall d :: d in stored + configured && IsAncestorOrSelf(e.file.value, d) ==>
            (Url(d) in e'.excludeFolderUrls <==> d in configured))
      && (forall u :: u !in UrlsUnder(e.file.value, stored + configured) ==>
            (u in e'.excludeFolderUrls <==> u in e.excludeFolderUrls))
  {
    var root := e.file.value;
    var e' := ProcessEntry(ProcessEntry(e, configured - stored, AddExclude), stored - configured, RemoveExclude);
    assert e'.excludeFolderUrls ==
      (e.excludeFolderUrls + UrlsUnder(root, configured - stored)) - UrlsUnder(root, stored - configured);
    forall d | d in stored + configured && IsAncestorOrSelf(root, d)
      ensures Url(d) in e'.excludeFolderUrls <==> d in configured
    {
      UrlUnderIff(root, configured - stored, d);
      UrlUnderIff(root, stored - configured, d);
    }
    forall u | u !in UrlsUnder(root, stored + configured)
      ensures u in e'.excludeFolderUrls <==> u in e.excludeFolderUrls
    {
      assert UrlsUnder(root, configured - stored) <= UrlsUnder(root, stored + configured);
      assert UrlsUnder(root, stored - configured) <= UrlsUnder(root, stored + configured);
    }
  }
}
