/** `SelectProfilesAction`: what happens once the profile dialog closes. The dialog's answer (was it
    confirmed, which profiles are ticked, in insertion order) is an input. */
module SelectAction {
  import opened Wrappers
  import opened Vfs
  import opened Model
  import opened Settings
  import opened Excludes
  import opened ChangeListener

  /** `selectedProfiles.flatMap { it.excludedPaths }.toSet()`. */
  function UnionOfExcluded(selected: seq<Profile>): (r: set<Dir>)
    ensures forall d :: d in r <==> exists i :: 0 <= i < |selected| && d in selected[i].excludedPaths
  {
    if selected == [] then {}
    else
      var rest := UnionOfExcluded(selected[1..]);
      assert forall i :: 0 < i < |selected| ==> selected[i] == selected[1..][i - 1];
      selected[0].excludedPaths + rest
  }

  /** `selectedProfiles.firstOrNull()?.name`. */
  function FirstName(selected: seq<Profile>): Option<string> {
    if selected == [] then None else Some(selected[0].name)
  }

  /** Selecting one profile targets exactly what the change listener targets for it. */
  lemma SingleSelectionTargetsItsExcludes(p: Profile)
    ensures UnionOfExcluded([p]) == p.excludedPaths
  {
    assert [p][1..] == [];
  }

  /** The target does not depend on the order in which profiles were ticked. */
  lemma TargetIgnoresOrder(s1: seq<Profile>, s2: seq<Profile>)
    requires forall p :: p in s1 <==> p in s2
    ensures UnionOfExcluded(s1) == UnionOfExcluded(s2)
  {
    forall d ensures d in UnionOfExcluded(s1) <==> d in UnionOfExcluded(s2) {
      if d in UnionOfExcluded(s1) {
        var i :| 0 <= i < |s1| && d in s1[i].excludedPaths;
        assert s1[i] in s2;
        var j :| 0 <= j < |s2| && s2[j] == s1[i];
      }
      if d in UnionOfExcluded(s2) {
        var i :| 0 <= i < |s2| && d in s2[i].excludedPaths;
        assert s2[i] in s1;
        var j :| 0 <= j < |s1| && s1[j] == s2[i];
      }
    }
  }

  /** After the action, the stored paths resolve to its target while those directories exist, so
      confirming the same selection again plans no change. */
  lemma ReapplyPlansNothing(selected: seq<Profile>, bases: seq<Dir>, resolve: Resolver)
    requires ResolvesToItself(bases, resolve, UnionOfExcluded(selected))
    requires |bases| > 0 || UnionOfExcluded(selected) == {}
    ensures var target := UnionOfExcluded(selected);
      Reconcile(target, ResolveEach(PathsOf(target), bases, resolve)) == Plan({}, {})
  {
    StoredPathsResolveBack(UnionOfExcluded(selected), bases, resolve);
  }

  /** The post-dialog part of `actionPerformed`. */
  method ApplySelection(confirmed: bool, selected: seq<Profile>, bases: seq<Dir>, resolve: Resolver,
                        settings: PluginSettingsState, modules: seq<Module>)
    requires forall i, j :: 0 <= i < j < |modules| ==> modules[i] != modules[j]
    modifies settings, modules
    ensures !confirmed ==>
      && unchanged(settings)
      && forall i :: 0 <= i < |modules| ==> modules[i].contentEntries == old(modules[i].contentEntries)
    ensures confirmed ==>
      var target := UnionOfExcluded(selected);
      var plan := Reconcile(target, ResolveEach(old(settings.excludedPaths), bases, resolve));
      && settings.activeProfileName == FirstName(selected)
      && settings.excludedPaths == PathsOf(target)
      && settings.modificationCount == old(settings.modificationCount) + 1
      && forall i :: 0 <= i < |modules| ==>
           modules[i].contentEntries == ApplyPlan(old(modules[i].contentEntries), plan.toExclude, plan.toCancel)
  {
    if !confirmed {
      return;
    }
    settings.activeProfileName := if selected == [] then None else Some(selected[0].name);

    var pathsToExclude := UnionOfExcluded(selected);
    var currentExcludedPaths := settings.ResolveExcludedPaths(bases, resolve);
    var pathsToAdd := pathsToExclude - currentExcludedPaths;
    var pathsToRemove := currentExcludedPaths - pathsToExclude;

    for k := 0 to |modules|
      modifies modules
      invariant forall i :: 0 <= i < k ==>
        modules[i].contentEntries == ApplyPlan(old(modules[i].contentEntries), pathsToAdd, pathsToRemove)
      invariant forall i :: k <= i < |modules| ==> modules[i].contentEntries == old(modules[i].contentEntries)
    {
      var m := modules[k];
      ghost var before := m.contentEntries;
      if pathsToAdd != {} {
        ExcludePaths(m, pathsToAdd);
      } else {
        EmptySetChangesNothing(before, AddExclude);
      }
      ghost var middle := m.contentEntries;
      if pathsToRemove != {} {
        CancelExcludePaths(m, pathsToRemove);
      } else {
        EmptySetChangesNothing(middle, RemoveExclude);
      }
    }

    settings.UpdateExcludedPaths(pathsToExclude);
  }
}
