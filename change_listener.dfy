/** `ProfilesConfigChangeListener`: on a batch of file events that touches a profile file, reload
    the profiles, select the active one, and reconcile the modules' exclude folders and the
    persisted state with the selected profile's excluded directories. One call of `After` is one
    such pass. */
module ChangeListener {
  import opened Wrappers
  import opened Text
  import opened Vfs
  import opened Model
  import opened ConfigService
  import opened Settings
  import opened Excludes

  /** What a pass reads from the IDE: the document of every profile file (in index order), the YAML
      decoder, the project's base directories and the resolver. */
  datatype Workspace = Workspace(
    documents: seq<Option<string>>,
    parse: string -> Option<seq<ProfileConfig>>,
    bases: seq<Dir>,
    resolve: Resolver)

  function LoadedFrom(ws: Workspace): seq<Profile> {
    LoadConfigs(ws.documents, ws.parse, ws.bases, ws.resolve)
  }

  /** Some event path ends with the profile file name. */
  predicate TouchesProfileFile(eventPaths: seq<string>) {
    exists i :: 0 <= i < |eventPaths| && EndsWith(eventPaths[i], ProfileFileName)
  }

  /** `firstOrNull { it.name == name }`, as an index. */
  function FirstNamed(profiles: seq<Profile>, name: string): (r: Option<nat>)
    ensures r.Some? ==> r.value < |profiles| && profiles[r.value].name == name
    ensures r.Some? ==> forall j :: 0 <= j < r.value ==> profiles[j].name != name
    ensures r.None? ==> forall j :: 0 <= j < |profiles| ==> profiles[j].name != name
  {
    if profiles == [] then None
    else if profiles[0].name == name then Some(0)
    else match FirstNamed(profiles[1..], name)
      case None => None
      case Some(k) => Some(k + 1)
  }

  /** The position `selectProfile` picks. */
  function SelectIndex(profiles: seq<Profile>, activeName: Option<string>): nat
    requires profiles != []
  {
    if !IsNullOrBlank(activeName) && FirstNamed(profiles, activeName.value).Some?
    then FirstNamed(profiles, activeName.value).value
    else 0
  }

  /** An active name that is set, not blank, and carried by some profile. */
  predicate NameMatches(profiles: seq<Profile>, activeName: Option<string>) {
    !IsNullOrBlank(activeName) && exists i :: 0 <= i < |profiles| && profiles[i].name == activeName.value
  }

  /** `selectProfile`: the first profile carrying the active name if that name is set and not
      blank, and otherwise the first profile. */
  function SelectProfile(profiles: seq<Profile>, activeName: Option<string>): (r: Profile)
    requires profiles != []
    ensures r in profiles
    ensures NameMatches(profiles, activeName) ==>
      && r.name == activeName.value
      && exists k :: 0 <= k < |profiles| && r == profiles[k] && forall j :: 0 <= j < k ==> profiles[j].name != activeName.value
    ensures !NameMatches(profiles, activeName) ==> r == profiles[0]
  {
    profiles[SelectIndex(profiles, activeName)]
  }

  /** Selecting again with the name just selected picks the same profile. */
  lemma SelectionIsStable(profiles: seq<Profile>, activeName: Option<string>)
    requires profiles != []
    ensures SelectProfile(profiles, Some(SelectProfile(profiles, activeName).name)) == SelectProfile(profiles, activeName)
  {
    var k := SelectIndex(profiles, activeName);
    var name := profiles[k].name;
    if !IsBlank(name) {
      var f := FirstNamed(profiles, name);
      assert f.Some?;
      if k == 0 {
        assert f.value == 0;
      } else {
        assert f.value == k;
      }
    }
  }

  /** The selection looks at names only. */
  lemma SelectionByNamesOnly(p1: seq<Profile>, p2: seq<Profile>, activeName: Option<string>)
    requires p1 != [] && |p1| == |p2|
    requires forall i :: 0 <= i < |p1| ==> p1[i].name == p2[i].name
    ensures SelectIndex(p1, activeName) == SelectIndex(p2, activeName)
  {
  }

  /** The gathered profiles are a set, and `first()` on it is the first profile of the first file
      that produced one. */
  lemma FirstProfileIsFirstLoaded(ws: Workspace)
    requires AllLoaded(ws.documents, ws.parse, ws.bases, ws.resolve) != []
    ensures LoadedFrom(ws) != [] && LoadedFrom(ws)[0] == AllLoaded(ws.documents, ws.parse, ws.bases, ws.resolve)[0]
  {
  }

  /** The changes a pass asks of the modules. */
  datatype Plan = Plan(toExclude: set<Dir>, toCancel: set<Dir>)

  /** `toExclude = fromConfig - fromState`, `toCancelExclude = fromState - fromConfig`. */
  function Reconcile(fromConfig: set<Dir>, fromState: set<Dir>): (p: Plan)
    ensures p.toExclude !! p.toCancel
    ensures p.toExclude !! fromState && p.toCancel <= fromState
    ensures p.toCancel !! fromConfig && p.toExclude <= fromConfig
    ensures (fromState - p.toCancel) + p.toExclude == fromConfig
    ensures p == Plan({}, {}) <==> fromConfig == fromState
  {
    Plan(fromConfig - fromState, fromState - fromConfig)
  }

  /** The directories a pass wants excluded: the selected profile's excluded directories, or none
      when no profile loaded. */
  function Desired(profiles: seq<Profile>, activeName: Option<string>): set<Dir> {
    if profiles == [] then {} else SelectProfile(profiles, activeName).excludedPaths
  }

  /** The effect of one pass on the persisted state, and the plan it applies to every module. */
  datatype Outcome = Outcome(activeName: Option<string>, storedPaths: set<string>, plan: Plan, bumps: nat)

  /** One pass of `after`, given whether the batch touches a profile file, the loaded profiles and
      the persisted state it starts from. A batch without a profile file changes nothing; otherwise
      the name becomes the selected profile's (null without profiles), the plan never both excludes
      and cancels a directory and cancels only what the stored paths resolve to, and the stored
      paths are rewritten only when the plan has work to do. */
  function ListenerPass(touches: bool, profiles: seq<Profile>, activeName: Option<string>,
                        stored: set<string>, bases: seq<Dir>, resolve: Resolver): (r: Outcome)
    ensures !touches ==> r == Outcome(activeName, stored, Plan({}, {}), 0)
    ensures touches ==> r.activeName == if profiles == [] then None else Some(SelectProfile(profiles, activeName).name)
    ensures r.plan.toExclude !! r.plan.toCancel
    ensures r.plan.toCancel <= ResolveEach(stored, bases, resolve)
    ensures r.storedPaths != stored ==> r.plan != Plan({}, {})
    ensures r.bumps <= 2
  {
    if !touches then Outcome(activeName, stored, Plan({}, {}), 0)
    else
      var fromState := ResolveEach(stored, bases, resolve);
      if profiles == [] then
        if fromState != {} then Outcome(None, {}, Plan({}, fromState), 2)
        else Outcome(None, stored, Plan({}, {}), 1)
      else
        var selected := SelectProfile(profiles, activeName);
        var plan := Reconcile(selected.excludedPaths, fromState);
        var nameBumps := if Some(selected.name) != activeName then 1 else 0;
        if plan.toExclude != {} || plan.toCancel != {} then
          Outcome(Some(selected.name), PathsOf(selected.excludedPaths), plan, nameBumps + 1)
        else
          Outcome(Some(selected.name), stored, plan, nameBumps)
  }

  /** When no profile loads, every directory the stored paths resolve to is cancelled and the stored
      paths are cleared to the empty set (both only if that set is non-empty, two writes in all),
      and the active name becomes null (one write). */
  lemma NoProfilesClearsState(activeName: Option<string>, stored: set<string>, bases: seq<Dir>, resolve: Resolver)
    ensures var o := ListenerPass(true, [], activeName, stored, bases, resolve);
      && o.activeName == None
      && o.plan == Plan({}, ResolveEach(stored, bases, resolve))
      && ResolveEach(o.storedPaths, bases, resolve) == {}
      && (ResolveEach(stored, bases, resolve) == {} ==> o.storedPaths == stored && o.bumps == 1)
      && (ResolveEach(stored, bases, resolve) != {} ==> o.storedPaths == {} && o.bumps == 2)
  {
    var o := ListenerPass(true, [], activeName, stored, bases, resolve);
    assert ResolveEach({}, bases, resolve) == {};
    if ResolveEach(stored, bases, resolve) != {} {
      assert o.bumps == 2;
    }
  }

  /** A pass whose selected profile already carries the active name and whose stored paths already
      resolve to its excluded directories writes nothing and plans nothing. */
  lemma InSyncPassWritesNothing(profiles: seq<Profile>, activeName: Option<string>, stored: set<string>,
                                bases: seq<Dir>, resolve: Resolver)
    requires profiles != []
    requires activeName == Some(SelectProfile(profiles, activeName).name)
    requires ResolveEach(stored, bases, resolve) == SelectProfile(profiles, activeName).excludedPaths
    ensures ListenerPass(true, profiles, activeName, stored, bases, resolve) == Outcome(activeName, stored, Plan({}, {}), 0)
  {
  }

  /** After a pass, the stored paths resolve to the desired directories (while those still exist),
      and a second pass over the same profiles changes nothing: it plans no change, keeps the
      stored state, and, when profiles exist, writes nothing at all. */
  lemma PassConverges(profiles: seq<Profile>, activeName: Option<string>, stored: set<string>,
                      bases: seq<Dir>, resolve: Resolver)
    requires ResolvesToItself(bases, resolve, Desired(profiles, activeName))
    requires |bases| > 0 || Desired(profiles, activeName) == {}
    ensures var o := ListenerPass(true, profiles, activeName, stored, bases, resolve);
      && ResolveEach(o.storedPaths, bases, resolve) == Desired(profiles, activeName)
      && var o2 := ListenerPass(true, profiles, o.activeName, o.storedPaths, bases, resolve);
      && o2.plan == Plan({}, {})
      && o2.activeName == o.activeName
      && o2.storedPaths == o.storedPaths
      && (profiles != [] ==> o2.bumps == 0)
  {
    var o := ListenerPass(true, profiles, activeName, stored, bases, resolve);
    if profiles == [] {
      assert ResolveEach({}, bases, resolve) == {};
    } else {
      var selected := SelectProfile(profiles, activeName);
      StoredPathsResolveBack(selected.excludedPaths, bases, resolve);
      SelectionIsStable(profiles, activeName);
    }
  }

  /** Only the names and the excluded directories of the profiles drive a pass: the included
      directories play no role. */
  lemma IncludedPathsPlayNoRole(touches: bool, p1: seq<Profile>, p2: seq<Profile>, activeName: Option<string>,
                                stored: set<string>, bases: seq<Dir>, resolve: Resolver)
    requires |p1| == |p2|
    requires forall i :: 0 <= i < |p1| ==> p1[i].name == p2[i].name && p1[i].excludedPaths == p2[i].excludedPaths
    ensures ListenerPass(touches, p1, activeName, stored, bases, resolve) == ListenerPass(touches, p2, activeName, stored, bases, resolve)
  {
    if p1 != [] {
      SelectionByNamesOnly(p1, p2, activeName);
    }
  }

  /** `updateExcludes`: every module gets the additions and then the removals, each skipped when
      empty. */
  method UpdateExcludes(modules: seq<Module>, toExclude: set<Dir>, toCancel: set<Dir>)
    requires forall i, j :: 0 <= i < j < |modules| ==> modules[i] != modules[j]
    modifies modules
    ensures forall i :: 0 <= i < |modules| ==>
      modules[i].contentEntries == ApplyPlan(old(modules[i].contentEntries), toExclude, toCancel)
  {
    for k := 0 to |modules|
      invariant forall i :: 0 <= i < k ==>
        modules[i].contentEntries == ApplyPlan(old(modules[i].contentEntries), toExclude, toCancel)
      invariant forall i :: k <= i < |modules| ==> modules[i].contentEntries == old(modules[i].contentEntries)
    {
      var m := modules[k];
      ghost var before := m.contentEntries;
      if toExclude != {} {
        ExcludePaths(m, toExclude);
      } else {
        EmptySetChangesNothing(before, AddExclude);
      }
      ghost var middle := m.contentEntries;
      if toCancel != {} {
        CancelExcludePaths(m, toCancel);
      } else {
        EmptySetChangesNothing(middle, RemoveExclude);
      }
    }
  }

  lemma EmptyPlanChangesNothing(modules: seq<Module>)
    ensures forall i :: 0 <= i < |modules| ==>
      ApplyPlan(modules[i].contentEntries, {}, {}) == modules[i].contentEntries
  {
    forall i | 0 <= i < |modules| ensures ApplyPlan(modules[i].contentEntries, {}, {}) == modules[i].contentEntries {
      EmptySetChangesNothing(modules[i].contentEntries, AddExclude);
      EmptySetChangesNothing(modules[i].contentEntries, RemoveExclude);
    }
  }

  /** `after`: one reconciliation pass. */
  method After(eventPaths: seq<string>, ws: Workspace, settings: PluginSettingsState, modules: seq<Module>)
    requires forall i, j :: 0 <= i < j < |modules| ==> modules[i] != modules[j]
    modifies settings, modules
    ensures var o := ListenerPass(TouchesProfileFile(eventPaths), LoadedFrom(ws),
                                  old(settings.activeProfileName), old(settings.excludedPaths), ws.bases, ws.resolve);
      && settings.activeProfileName == o.activeName
      && settings.excludedPaths == o.storedPaths
      && settings.modificationCount == old(settings.modificationCount) + o.bumps
      && forall i :: 0 <= i < |modules| ==>
           modules[i].contentEntries == ApplyPlan(old(modules[i].contentEntries), o.plan.toExclude, o.plan.toCancel)
  {
    if !exists i :: 0 <= i < |eventPaths| && EndsWith(eventPaths[i], ProfileFileName) {
      EmptyPlanChangesNothing(modules);
      return;
    }
    var profiles := LoadConfigs(ws.documents, ws.parse, ws.bases, ws.resolve);

    if profiles == [] {
      var fromState := settings.ResolveExcludedPaths(ws.bases, ws.resolve);
      if fromState != {} {
        UpdateExcludes(modules, {}, fromState);
        settings.UpdateExcludedPaths({});
        assert PathsOf({}) == {};
      } else {
        EmptyPlanChangesNothing(modules);
      }
      settings.UpdateActiveProfileName(None);
      return;
    }

    var selected := SelectProfile(profiles, settings.activeProfileName);
    var fromConfig := selected.excludedPaths;
    var fromState := settings.ResolveExcludedPaths(ws.bases, ws.resolve);
    var toExclude := fromConfig - fromState;
    var toCancelExclude := fromState - fromConfig;

    if Some(selected.name) != settings.activeProfileName {
      settings.UpdateActiveProfileName(Some(selected.name));
    }

    if toExclude != {} || toCancelExclude != {} {
      UpdateExcludes(modules, toExclude, toCancelExclude);
      settings.UpdateExcludedPaths(fromConfig);
    } else {
      EmptyPlanChangesNothing(modules);
    }
  }
}
