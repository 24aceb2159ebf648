# monorepo-profiles, modelled in Dafny

monorepo-profiles is an IntelliJ plugin. It reads `monorepo-profiles.yaml` files that name
profiles, each a set of included and a set of excluded paths. It keeps the plugin's state: an
active profile name, and the excluded directories as path strings. It also keeps every module's
exclude folders in line with the selected profile. This project models that core in Dafny and
proves its properties:

- `Model`: the two records, `ProfileConfig` (as decoded, with its defaults) and `Profile` (with
  resolved directories).
- `ConfigService` covers several steps:
  - `validateProfileConfig`, an ordered check;
  - `loadProfiles`, a loop that keeps valid configs and counts invalid ones;
  - path resolution against the project's base directories;
  - `loadConfigs`, the ordered, duplicate-free union over all profile files.
- `Settings`: `PluginSettingsState`, a class with two mutable fields and a modification counter,
  and a read-only re-resolution of the stored paths.
- `Excludes`: `ExcludeService`. Its `process` has nested loops over content entries and paths. It
  edits a copy of the module's entries and commits it once.
- `ChangeListener`: one `after` pass, with `selectProfile`, the set differences and `updateExcludes`.
- `SelectAction`: what `SelectProfilesAction` does once its dialog closes.
- `Gutter` covers two things:
  - the `namePattern` search, written as a hand matcher and proved sound and complete against a
    declarative statement of the regular expression, down to the group Java's matcher returns;
  - the active/inactive marker that follows from the extracted name.
- `Distinct`: `toSet()` on a list, as the duplicate-free sequence of its elements in order of
  first occurrence.
- `Vfs`, `Text`, `Wrappers` hold support code:
  - directories as sequences of path segments, where ancestor-or-self is the sequence prefix;
  - `path` and `url` strings, proved injective;
  - resolution of path strings;
  - Kotlin's `isBlank` whitespace set, and the regular expression's `\s`.

The model takes three things as parameters:

- The IDE's file-system queries. `resolveFromRootOrRelative` is the function `resolve`, and
  `getBaseDirectories` is the sequence `bases`.
- The YAML decoder, `parse`. None stands for a Jackson exception.
- Each profile file's document, `Option<string>`. None means the document is unreadable.

Gathering profiles with `toSet()` gives a `LinkedHashSet`, and `selectProfile` then calls
`first()` on it. The model therefore keeps the gathered profiles as a duplicate-free sequence in
order of first appearance.

## Model

| member | source | states |
|---|---|---|
| Model.OmittedFieldsTakeDefaults | src/main/kotlin/com/github/gplassard/monorepoprofiles/model/ProfileConfig.kt:3-8 | a config written with only `name` and `includedPaths` has no excluded paths and priority 0 |
| Vfs.PathInjective | src/main/kotlin/com/github/gplassard/monorepoprofiles/settings/PluginSettings.kt:30 | distinct well-formed directories have distinct `path` strings, so storing paths loses no directory |
| Vfs.UrlInjective | src/main/kotlin/com/github/gplassard/monorepoprofiles/services/ExcludeService.kt:26 | distinct well-formed directories have distinct URLs, so removing by URL removes exactly that directory |
| Vfs.ResolveEachSingle | src/main/kotlin/com/github/gplassard/monorepoprofiles/services/ProfilesConfigService.kt:75-83 | one path under one base directory gives the directory it resolves to, or nothing |
| Vfs.ResolveEachUnion | src/main/kotlin/com/github/gplassard/monorepoprofiles/services/ProfilesConfigService.kt:75-83 | resolution distributes over a union of path sets |
| Vfs.ResolveEachAtMostOnePerPath | src/main/kotlin/com/github/gplassard/monorepoprofiles/services/ProfilesConfigService.kt:75-86 | with a single base directory, the resolved set is no larger than the path set |
| ConfigService.SinglePathResolvesToNothing | src/main/kotlin/com/github/gplassard/monorepoprofiles/services/ProfilesConfigService.kt:75-86 | resolving one path alone gives nothing iff it resolves under no base directory |
| ConfigService.Validate | src/main/kotlin/com/github/gplassard/monorepoprofiles/services/ProfilesConfigService.kt:116-125 | no error iff the name is not blank, some path is given and no path is blank; an error names a failing check, and every earlier check passes |
| ConfigService.UnresolvedPathsResolveToNothing | src/main/kotlin/com/github/gplassard/monorepoprofiles/services/ProfilesConfigService.kt:75-86 | a path is unresolved iff it is configured and resolving it alone gives no directory; leaving the unresolved paths out changes no resolved set |
| ConfigService.WarningIffUnresolvedPath | src/main/kotlin/com/github/gplassard/monorepoprofiles/services/ProfilesConfigService.kt:85-90 | corrected diagnostic: a warning is due iff some included or excluded path resolves under no base directory |
| ConfigService.AsWrittenMissesUnresolvedPath | src/main/kotlin/com/github/gplassard/monorepoprofiles/services/ProfilesConfigService.kt:85-90 | the count as written (paths minus resolved directories) is 0 for a config with an unresolved path, so no warning is logged, though the corrected diagnostic reports one path |
| ConfigService.AsWrittenWarnsWithoutUnresolvedPath | src/main/kotlin/com/github/gplassard/monorepoprofiles/services/ProfilesConfigService.kt:85-90 | with one base directory and two paths resolving to the same directory, the count as written is 1 and a warning is logged, though every path resolves and the corrected diagnostic is empty |
| ConfigService.UnresolvedCountAsWritten | src/main/kotlin/com/github/gplassard/monorepoprofiles/services/ProfilesConfigService.kt:85-86 | the count as written never exceeds the number of paths; with a single base directory it is at least the number of unresolved paths, since each path yields at most one directory |
| ConfigService.WarnsAsWritten | src/main/kotlin/com/github/gplassard/monorepoprofiles/services/ProfilesConfigService.kt:85-90 | whether the source logs its warning; with a single base directory it does whenever the corrected diagnostic is due (the two counterexample lemmas show the other cases) |
| ConfigService.LoadStep | src/main/kotlin/com/github/gplassard/monorepoprofiles/services/ProfilesConfigService.kt:69-94 | taking one more config into account appends its profile if it is valid, adds 1 to the invalid count if it is not, and appends its diagnostic |
| ConfigService.ProfilesSplit | src/main/kotlin/com/github/gplassard/monorepoprofiles/services/ProfilesConfigService.kt:69-94 | the profiles of a concatenation are the profiles of its parts in order, so profiles keep their configs' order |
| ConfigService.InvalidCountSplits | src/main/kotlin/com/github/gplassard/monorepoprofiles/services/ProfilesConfigService.kt:70-73 | the invalid count of a concatenation is the sum of the parts' counts |
| ConfigService.WarningsSplit | src/main/kotlin/com/github/gplassard/monorepoprofiles/services/ProfilesConfigService.kt:85-90 | the diagnostics of a concatenation are the parts' diagnostics in order |
| ConfigService.ProcessingOne | src/main/kotlin/com/github/gplassard/monorepoprofiles/services/ProfilesConfigService.kt:69-93 | one config gives its profile if valid, and otherwise counts as one invalid config with no diagnostic |
| ConfigService.ProfilesPlusInvalidIsConfigs | src/main/kotlin/com/github/gplassard/monorepoprofiles/services/ProfilesConfigService.kt:66-94 | profiles plus invalid configs equals the number of configs |
| ConfigService.ValidProfilesMembers | src/main/kotlin/com/github/gplassard/monorepoprofiles/services/ProfilesConfigService.kt:69-94 | a profile is produced iff it is the resolution of some valid config, keeping that config's name |
| ConfigService.LoadedProfilesAreValid | src/main/kotlin/com/github/gplassard/monorepoprofiles/services/ProfilesConfigService.kt:49-114 | a loaded profile implies a readable, non-blank, parsable document holding a valid config that it resolves, so its name is not blank |
| ConfigService.BlankNameYieldsNoProfile | src/main/kotlin/com/github/gplassard/monorepoprofiles/services/ProfilesConfigService.kt:118 | a document whose only config has a blank name (`name: ""`) yields no profile |
| ConfigService.PathlessConfigRejected | src/main/kotlin/com/github/gplassard/monorepoprofiles/services/ProfilesConfigService.kt:119-120 | a config with no path yields nothing, and one with only excluded paths yields its profile |
| ConfigService.ProcessConfigs | src/main/kotlin/com/github/gplassard/monorepoprofiles/services/ProfilesConfigService.kt:69-94 | the loop's profiles, invalid count and diagnostics are those of the configs in order, and profiles plus invalid equals configs |
| ConfigService.LoadProfiles | src/main/kotlin/com/github/gplassard/monorepoprofiles/services/ProfilesConfigService.kt:49-114 | unreadable, blank or unparsable content gives no profiles, count or diagnostics; otherwise the profiles, invalid count and diagnostics are those of the decoded configs in order, and profiles plus invalid equals configs |
| ConfigService.LoadedProfiles | src/main/kotlin/com/github/gplassard/monorepoprofiles/services/ProfilesConfigService.kt:49-114 | the function form of `loadProfiles`: no profiles for unreadable, blank or unparsable content, otherwise the valid configs' profiles in order; given meaning by `LoadedProfilesAreValid`, `BlankNameYieldsNoProfile`, `PathlessConfigRejected` and `LoadProfiles` |
| ConfigService.AllLoaded | src/main/kotlin/com/github/gplassard/monorepoprofiles/services/ProfilesConfigService.kt:44-45 | a profile is in the flat-mapped list iff some profile file loads it |
| Distinct.DistinctInOrder | src/main/kotlin/com/github/gplassard/monorepoprofiles/services/ProfilesConfigService.kt:46 | `toSet()` keeps exactly the same elements, without duplicates, and keeps the first element first |
| Distinct.FirstIndexInPrefix | src/main/kotlin/com/github/gplassard/monorepoprofiles/services/ProfilesConfigService.kt:46 | an element of a prefix first occurs in the prefix where it first occurs in the whole sequence |
| Distinct.DistinctInOrderFollowsFirstOccurrence | src/main/kotlin/com/github/gplassard/monorepoprofiles/services/ProfilesConfigService.kt:46 | the elements `toSet()` keeps are ordered by their first occurrence in the input |
| ConfigService.LoadConfigs | src/main/kotlin/com/github/gplassard/monorepoprofiles/services/ProfilesConfigService.kt:33-47 | a profile is gathered iff some profile file loads it; each is gathered once, in the order of its first appearance in the files' concatenated lists |
| ConfigService.LoadConfigsNamesNotBlank | src/main/kotlin/com/github/gplassard/monorepoprofiles/services/ProfilesConfigService.kt:44-46 | no gathered profile has a blank name |
| Settings.PluginSettingsState.constructor | src/main/kotlin/com/github/gplassard/monorepoprofiles/settings/PluginSettings.kt:19-21 | a fresh state has no active name, no stored paths and a zero counter |
| Settings.PluginSettingsState.UpdateActiveProfileName | src/main/kotlin/com/github/gplassard/monorepoprofiles/settings/PluginSettings.kt:23-26 | stores the given name (null included), keeps the stored paths, and adds one to the counter |
| Settings.PluginSettingsState.UpdateExcludedPaths | src/main/kotlin/com/github/gplassard/monorepoprofiles/settings/PluginSettings.kt:28-32 | replaces the stored paths with the given directories' paths, keeps the name, and adds one to the counter |
| Settings.StoredPathsResolveBack | src/main/kotlin/com/github/gplassard/monorepoprofiles/settings/PluginSettings.kt:28-42 | storing directories and resolving them again gives the same directories while they exist |
| Settings.UnresolvableStoredPathVanishes | src/main/kotlin/com/github/gplassard/monorepoprofiles/settings/PluginSettings.kt:37-38 | a stored path that resolves nowhere changes nothing in the result |
| Excludes.Module.constructor | src/main/kotlin/com/github/gplassard/monorepoprofiles/services/ExcludeService.kt:35 | a module holds the content entries it is given |
| Excludes.ProcessEntryStep | src/main/kotlin/com/github/gplassard/monorepoprofiles/services/ExcludeService.kt:38-41 | offering one more path calls the processor iff the entry has a root that is the path or its ancestor |
| Excludes.Process | src/main/kotlin/com/github/gplassard/monorepoprofiles/services/ExcludeService.kt:30-47 | after the nested loops and the single commit, the module's entries are the processed entries |
| Excludes.ExcludePaths | src/main/kotlin/com/github/gplassard/monorepoprofiles/services/ExcludeService.kt:16-21 | `process` with `addExcludeFolder` |
| Excludes.CancelExcludePaths | src/main/kotlin/com/github/gplassard/monorepoprofiles/services/ExcludeService.kt:23-28 | `process` with `removeExcludeFolder(path.url)` |
| Excludes.UrlUnderIff | src/main/kotlin/com/github/gplassard/monorepoprofiles/services/ExcludeService.kt:39-41 | a directory's URL is among the URLs processed for an entry iff the directory is a path under the entry's root |
| Excludes.ExcludeAddsExactly | src/main/kotlin/com/github/gplassard/monorepoprofiles/services/ExcludeService.kt:16-20 | a directory is excluded afterwards iff it was before or it is a path whose entry root is it or its ancestor; nothing is removed, the root is unchanged, and every exclude folder whose URL is not that of a path under the root is kept as it was |
| Excludes.CancelRemovesExactly | src/main/kotlin/com/github/gplassard/monorepoprofiles/services/ExcludeService.kt:23-27 | a directory stays excluded iff it was and it is not a path under the entry's root; nothing is added, and every exclude folder whose URL is not that of a path under the root is kept as it was |
| Excludes.EntriesOutsideUntouched | src/main/kotlin/com/github/gplassard/monorepoprofiles/services/ExcludeService.kt:39-40 | an entry with no root, or whose root lies above none of the paths, is unchanged |
| Excludes.EmptySetChangesNothing | src/test/kotlin/com/github/gplassard/monorepoprofiles/services/ExcludeServiceTest.kt:105-139 | either operation with no path leaves every entry as it was |
| Excludes.CancelUndoesExclude | src/test/kotlin/com/github/gplassard/monorepoprofiles/services/ExcludeServiceTest.kt:49-67 | excluding then cancelling the same paths ends as the cancel alone would, so the paths are not excluded |
| Excludes.ExcludeIdempotent | src/main/kotlin/com/github/gplassard/monorepoprofiles/services/ExcludeService.kt:16-20 | excluding twice is excluding once |
| Excludes.ApplyPlanReachesTarget | src/main/kotlin/com/github/gplassard/monorepoprofiles/listeners/ProfilesConfigChangeListener.kt:46-50 | applying the additions and removals to an entry whose exclude folders mirror the stored set makes them mirror the configured set; other exclude folders stay |
| ChangeListener.FirstNamed | src/main/kotlin/com/github/gplassard/monorepoprofiles/listeners/ProfilesConfigChangeListener.kt:91 | returns the first index carrying the name, or None when no profile does |
| ChangeListener.SelectProfile | src/main/kotlin/com/github/gplassard/monorepoprofiles/listeners/ProfilesConfigChangeListener.kt:89-95 | a non-blank active name carried by some profile selects the first profile with it; otherwise the first profile is selected |
| ChangeListener.SelectionIsStable | src/main/kotlin/com/github/gplassard/monorepoprofiles/listeners/ProfilesConfigChangeListener.kt:42-54 | selecting again with the stored selected name picks the same profile |
| ChangeListener.SelectionByNamesOnly | src/main/kotlin/com/github/gplassard/monorepoprofiles/listeners/ProfilesConfigChangeListener.kt:89-95 | the selected position depends only on the profiles' names |
| ChangeListener.FirstProfileIsFirstLoaded | src/main/kotlin/com/github/gplassard/monorepoprofiles/listeners/ProfilesConfigChangeListener.kt:94 | `first()` on the gathered set is the first profile loaded from the first file that gives one |
| ChangeListener.Reconcile | src/main/kotlin/com/github/gplassard/monorepoprofiles/listeners/ProfilesConfigChangeListener.kt:46-50 | the two differences are disjoint, the additions lie outside the state and the removals inside it; applied to the state they give the config; both are empty iff state equals config |
| ChangeListener.ListenerPass | src/main/kotlin/com/github/gplassard/monorepoprofiles/listeners/ProfilesConfigChangeListener.kt:21-71 | a batch without a profile file changes nothing; otherwise the name becomes the selected profile's (null without profiles), the plan never both excludes and cancels a directory and cancels only what the stored paths resolve to, the stored paths are rewritten only when the plan is non-empty, and at most two writes happen |
| ChangeListener.NoProfilesClearsState | src/main/kotlin/com/github/gplassard/monorepoprofiles/listeners/ProfilesConfigChangeListener.kt:32-39 | with no profiles, the whole resolved state is cancelled and the stored paths then resolve to nothing; the active name becomes null; if the state resolves empty the stored paths stay and only the name is written (one write); otherwise the stored paths become empty and both are written (two writes) |
| ChangeListener.InSyncPassWritesNothing | src/main/kotlin/com/github/gplassard/monorepoprofiles/listeners/ProfilesConfigChangeListener.kt:52-64 | when name and state already match the selection, the pass plans nothing and writes nothing |
| ChangeListener.PassConverges | src/main/kotlin/com/github/gplassard/monorepoprofiles/listeners/ProfilesConfigChangeListener.kt:21-71 | after a pass the stored paths resolve to the selected excludes, and a second pass plans nothing, keeps the state and, when profiles exist, writes nothing |
| ChangeListener.IncludedPathsPlayNoRole | src/main/kotlin/com/github/gplassard/monorepoprofiles/listeners/ProfilesConfigChangeListener.kt:46 | two profile lists that differ only in included directories give the same pass |
| ChangeListener.UpdateExcludes | src/main/kotlin/com/github/gplassard/monorepoprofiles/listeners/ProfilesConfigChangeListener.kt:73-87 | every module ends with the additions and then the removals applied; an empty step is skipped without effect |
| ChangeListener.EmptyPlanChangesNothing | src/main/kotlin/com/github/gplassard/monorepoprofiles/listeners/ProfilesConfigChangeListener.kt:61 | an empty plan leaves every module's entries as they were |
| ChangeListener.After | src/main/kotlin/com/github/gplassard/monorepoprofiles/listeners/ProfilesConfigChangeListener.kt:21-71 | the new active name, stored paths, counter and every module's entries are those of one pass over the event batch, the loaded profiles and the old state |
| SelectAction.UnionOfExcluded | src/main/kotlin/com/github/gplassard/monorepoprofiles/ui/SelectProfilesAction.kt:50-52 | a directory is targeted iff some selected profile excludes it |
| SelectAction.SingleSelectionTargetsItsExcludes | src/main/kotlin/com/github/gplassard/monorepoprofiles/ui/SelectProfilesAction.kt:50-52 | one selected profile targets exactly its own excluded directories |
| SelectAction.TargetIgnoresOrder | src/main/kotlin/com/github/gplassard/monorepoprofiles/ui/SelectProfilesAction.kt:50-52 | the target depends only on which profiles are selected, not their order |
| SelectAction.ReapplyPlansNothing | src/main/kotlin/com/github/gplassard/monorepoprofiles/ui/SelectProfilesAction.kt:55-72 | after the action the stored paths resolve back to the target, so confirming the same selection again plans no change |
| SelectAction.ApplySelection | src/main/kotlin/com/github/gplassard/monorepoprofiles/ui/SelectProfilesAction.kt:36-72 | not confirmed: nothing changes. Confirmed: the active name is the first selected name or null; every module gets target-minus-current added and then current-minus-target removed; the stored paths are always overwritten with the target; the counter rises by exactly one |
| Gutter.SkipSpaces | src/main/kotlin/com/github/gplassard/monorepoprofiles/ui/ProfileGutterIconProvider.kt:16 | ends the longest run of `\s` characters |
| Gutter.NextQuote | src/main/kotlin/com/github/gplassard/monorepoprofiles/ui/ProfileGutterIconProvider.kt:16 | the first double quote at or after a position, or the end of the line |
| Gutter.RunEnd | src/main/kotlin/com/github/gplassard/monorepoprofiles/ui/ProfileGutterIconProvider.kt:16 | ends the longest run of characters that are neither `\s` nor commas |
| Gutter.MatchAt | src/main/kotlin/com/github/gplassard/monorepoprofiles/ui/ProfileGutterIconProvider.kt:16 | the engine's attempt at one position: a match sets exactly one of the two groups, to a non-empty string; proved against the pattern by `MatchAtSound` and `MatchAtComplete` |
| Gutter.MatchAtSound | src/main/kotlin/com/github/gplassard/monorepoprofiles/ui/ProfileGutterIconProvider.kt:16 | every match the matcher reports at a position is a match of the pattern there: `name:`, optional `\s`, then one of the alternatives |
| Gutter.MatchStartsAfterAllSpaces | src/main/kotlin/com/github/gplassard/monorepoprofiles/ui/ProfileGutterIconProvider.kt:16 | in any match, the value starts after all the spaces that follow `name:` |
| Gutter.MatchAtComplete | src/main/kotlin/com/github/gplassard/monorepoprofiles/ui/ProfileGutterIconProvider.kt:16 | wherever the pattern can match, the matcher finds a match |
| Gutter.QuotedAlternativeWins | src/main/kotlin/com/github/gplassard/monorepoprofiles/ui/ProfileGutterIconProvider.kt:46-52 | when the quoted alternative can match it is taken, and its group is the non-empty, quote-free text between the quotes |
| Gutter.BareNameIsMaximal | src/main/kotlin/com/github/gplassard/monorepoprofiles/ui/ProfileGutterIconProvider.kt:46-52 | an unquoted name is the maximal non-empty run of characters that are neither `\s` nor commas |
| Gutter.UnterminatedQuoteFallsThrough | src/main/kotlin/com/github/gplassard/monorepoprofiles/ui/ProfileGutterIconProvider.kt:16 | an opening quote with no closing one gives the unquoted alternative, whose name starts with the quote |
| Gutter.FindFrom | src/main/kotlin/com/github/gplassard/monorepoprofiles/ui/ProfileGutterIconProvider.kt:46-47 | returns the leftmost matching position, or None when the pattern matches nowhere |
| Gutter.ProfileName | src/main/kotlin/com/github/gplassard/monorepoprofiles/ui/ProfileGutterIconProvider.kt:46-52 | `group(1) ?: group(2)` is a name exactly when `find()` succeeds, and that name is never empty |
| Gutter.ProfileNameIsLeftmostMatch | src/main/kotlin/com/github/gplassard/monorepoprofiles/ui/ProfileGutterIconProvider.kt:46-55 | a name is extracted iff the pattern matches somewhere, and it is the group of the leftmost match, so the null check never fires |
| Gutter.GutterMarker | src/main/kotlin/com/github/gplassard/monorepoprofiles/ui/ProfileGutterIconProvider.kt:22-70 | a marker exists iff the element is a line-leading leaf of a profile file and a name is found; it is active iff the name equals the stored name (never for a null stored name); the tooltip follows |
| Gutter.QuotedNameExample | src/main/kotlin/com/github/gplassard/monorepoprofiles/ui/ProfileGutterIconProvider.kt:16 | `- name: "Web App"` gives `Web App` |
| Gutter.BareNameExample | src/main/kotlin/com/github/gplassard/monorepoprofiles/ui/ProfileGutterIconProvider.kt:16 | `{name:web, x}` gives `web` |
| Gutter.EmptyQuotesExample | src/main/kotlin/com/github/gplassard/monorepoprofiles/ui/ProfileGutterIconProvider.kt:16 | `name: ""` gives the two-character name `""` |
| Gutter.LongerKeyExample | src/main/kotlin/com/github/gplassard/monorepoprofiles/ui/ProfileGutterIconProvider.kt:16 | `names: web` gives no name |

## Left out

- YAML decoding (the Jackson mapper, and accepting a single object as a list) is a foreign
  library. It is the parameter `parse`.
- IDE platform services are parameters or are not modelled:
  - `resolveFromRootOrRelative` and `getBaseDirectories` are the parameters `resolve` and `bases`;
  - `FilenameIndex` lookup and `FileDocumentManager` are a sequence of documents
    (`ChangeListener.Workspace`);
  - read and write actions are not modelled;
  - the modules are a sequence of distinct `Module` objects, and `model.commit()` is the single
    final assignment in `Excludes.Process`.
- Coroutines and threading are not modelled. Each `after` pass and each confirmed dialog runs as
  one sequential method; nothing orders or debounces passes.
- Logging and notifications change no state.
  - The unresolved-path diagnostics are still returned by `ConfigService.LoadProfiles`, in the corrected form described next.
  - The invalid count is returned as well.
- The dialog, the debug action, icon building and `update()` are UI and not modelled. Those parts
  of `actionPerformed` are inputs of `SelectAction.ApplySelection`:
  - whether the dialog was confirmed;
  - the selected profiles, in insertion order.
- PSI lookups are not modelled. For the gutter, the PSI leaf and line-start guards are one boolean
  input. The document line is taken as given.
- ConfigService.LoadProfiles: its diagnostics count the paths that resolve under no base directory
  (`ConfigService.UnresolvedPaths`), not the source's `paths.size - resolved.size`. The two
  differ in both directions (see "## Findings"); the as-written count is `ConfigService.UnresolvedCountAsWritten`.
- ConfigService.ProcessConfigs: the loop that produces those diagnostics, with the same corrected count.
- `Settings.PluginSettingsState`: `BaseState`'s own change tracking inside its property delegates is
  not modelled. The counter counts only explicit `incrementModificationCount` calls, so the direct
  assignment of `activeProfileName` in `SelectProfilesAction.kt:41` does not add to it.
- `Constants.kt` is not part of this model. The file name `monorepo-profiles.yaml` is the one the
  tests use.
- `Text.IsKotlinWhitespace` follows current Unicode space classes. Differences between JDK Unicode
  versions, such as U+180E, are not modelled.
- `Excludes.ContentEntry`: the exclude folders are a set of URLs. Entries are values. Entries
  shared between modules, and the order of exclude folders, are not modelled.
- `Vfs.PathInjective`, `Vfs.UrlInjective`: injectivity needs segments without `/` (`WellFormed`).
  The lemmas about exact additions and removals assume it.
- `Settings.StoredPathsResolveBack`, `ChangeListener.PassConverges`, `SelectAction.ReapplyPlansNothing`:
  the round trip needs two assumptions:
  - the directories still exist, and their paths resolve back to them (`ResolvesToItself`);
  - at least one base directory exists.
- The listener's notification reads `selected.priority`, a field `Profile` does not have. That line
  is a notification and is not modelled.
- `loadConfigs` returns a set, but `selectProfile` takes a list. The model uses the ordered
  duplicate-free sequence described above.
- `PluginNotifications.warning` and `.error` are called but not defined. They are notifications
  and are not modelled.
- Some tests call settings methods the settings class does not define (`updateActiveProfiles`,
  `isProfileActive`, `activeProfileNames`). They are not modelled.
- No source file derives exclusions from the inclusion tree or orders profiles by priority.
  Neither is modelled. Included paths are resolved but never used (`ChangeListener.IncludedPathsPlayNoRole`).

## Findings

| source | as written | input that shows it | evidently intended | confidence | as-written member | corrected member |
|---|---|---|---|---|---|---|
| src/main/kotlin/com/github/gplassard/monorepoprofiles/services/ProfilesConfigService.kt:85-90 | the unresolved count is the number of configured paths minus the number of resolved directories | included paths `{"a", "b"}`, two base directories, `"a"` resolving under both and `"b"` under neither: 2 − 2 = 0, so no warning; conversely one base directory with `"a"` and `"b"` both resolving to the same directory: 2 − 1 = 1, so a warning though every path resolves | warn when some configured path resolves under no base directory, counting those paths | not executed | ConfigService.AsWrittenMissesUnresolvedPath | ConfigService.WarningIffUnresolvedPath |
