/** `ProfilesConfigService`: validation of decoded profile documents, their resolution into
    profiles, and the gathering of the profiles of every profile file of the project. The YAML
    decoder is a parameter `parse` (None stands for a `JacksonException`); a file's document is
    `Option<string>` (None when no document can be read for it). */
module ConfigService {
  import opened Wrappers
  import opened Text
  import opened Vfs
  import opened Model
  import opened Distinct

  /** The four reasons `validateProfileConfig` reports, in the order it checks them. */
  datatype ValidationError = BlankName | NoPaths | BlankIncludedPath | BlankExcludedPath {
    function Rank(): nat {
      match this
      case BlankName => 0
      case NoPaths => 1
      case BlankIncludedPath => 2
      case BlankExcludedPath => 3
    }
  }

  /** Whether the check that reports `e` fails on `c`. */
  predicate Fails(c: ProfileConfig, e: ValidationError) {
    match e
    case BlankName => IsBlank(c.name)
    case NoPaths => c.includedPaths == {} && c.excludedPaths == {}
    case BlankIncludedPath => exists p :: p in c.includedPaths && IsBlank(p)
    case BlankExcludedPath => exists p :: p in c.excludedPaths && IsBlank(p)
  }

  /** What a usable profile document satisfies: a non-blank name, at least one path, and no blank
      path in either set. */
  predicate ValidConfig(c: ProfileConfig) {
    && !IsBlank(c.name)
    && (c.includedPaths != {} || c.excludedPaths != {})
    && (forall p :: p in c.includedPaths ==> !IsBlank(p))
    && (forall p :: p in c.excludedPaths ==> !IsBlank(p))
  }

  /** `validateProfileConfig`: the first failing check, or None. */
  function Validate(c: ProfileConfig): (r: Option<ValidationError>)
    ensures r.None? <==> ValidConfig(c)
    ensures r.Some? ==> Fails(c, r.value) && forall e: ValidationError :: e.Rank() < r.value.Rank() ==> !Fails(c, e)
  {
    if IsBlank(c.name) then Some(BlankName)
    else if c.includedPaths == {} && c.excludedPaths == {} then Some(NoPaths)
    else if exists p :: p in c.includedPaths && IsBlank(p) then Some(BlankIncludedPath)
    else if exists p :: p in c.excludedPaths && IsBlank(p) then Some(BlankExcludedPath)
    else None
  }

  /** A valid config resolved against the base directories. */
  function ToProfile(c: ProfileConfig, bases: seq<Dir>, resolve: Resolver): Profile {
    Profile(c.name, ResolveEach(c.includedPaths, bases, resolve), ResolveEach(c.excludedPaths, bases, resolve))
  }

  /** The configured paths that resolve under no base directory. */
  function UnresolvedPaths(paths: set<string>, bases: seq<Dir>, resolve: Resolver): (r: set<string>)
    ensures forall p :: p in r <==> p in paths && forall b :: b in bases ==> resolve(b, p).None?
  {
    set p | p in paths && forall b :: b in bases ==> resolve(b, p).None?
  }

  /** The diagnostic logged for a valid profile some of whose paths do not resolve. */
  datatype UnresolvedWarning = UnresolvedWarning(profile: string, included: nat, excluded: nat)

  /** The diagnostic for one valid config, if one is due. */
  function WarningFor(c: ProfileConfig, bases: seq<Dir>, resolve: Resolver): seq<UnresolvedWarning> {
    var ui := |UnresolvedPaths(c.includedPaths, bases, resolve)|;
    var ue := |UnresolvedPaths(c.excludedPaths, bases, resolve)|;
    if ui > 0 || ue > 0 then [UnresolvedWarning(c.name, ui, ue)] else []
  }

  /** A warning is due for a config exactly when one of its paths resolves under no base
      directory. */
  lemma WarningIffUnresolvedPath(c: ProfileConfig, bases: seq<Dir>, resolve: Resolver)
    ensures WarningFor(c, bases, resolve) != [] <==>
      exists p :: p in c.includedPaths + c.excludedPaths && forall b :: b in bases ==> resolve(b, p).None?
  {
    var ui := UnresolvedPaths(c.includedPaths, bases, resolve);
    var ue := UnresolvedPaths(c.excludedPaths, bases, resolve);
    if exists p :: p in c.includedPaths + c.excludedPaths && forall b :: b in bases ==> resolve(b, p).None? {
      var p :| p in c.includedPaths + c.excludedPaths && forall b :: b in bases ==> resolve(b, p).None?;
      assert p in ui || p in ue;
    }
    if WarningFor(c, bases, resolve) != [] {
      var p :| p in ui + ue;
      assert p in c.includedPaths + c.excludedPaths && forall b :: b in bases ==> resolve(b, p).None?;
    }
  }

  /** The count of unresolved paths as `loadProfiles` computes it for its warning: the number of
      configured paths minus the number of resolved directories. It never exceeds the number of
      paths, and with a single base directory it is at least the number of unresolved paths; with
      more base directories it can fall below that, or below zero. */
  function UnresolvedCountAsWritten(paths: set<string>, bases: seq<Dir>, resolve: Resolver): (r: int)
    ensures r <= |paths|
    ensures |bases| == 1 ==> r >= |UnresolvedPaths(paths, bases, resolve)|
  {
    if |bases| == 1 then
      var u := UnresolvedPaths(paths, bases, resolve);
      UnresolvedPathsResolveToNothing(paths, bases, resolve);
      ResolveEachAtMostOnePerPath(paths - u, bases[0], resolve);
      assert bases == [bases[0]];
      assert |paths - u| == |paths| - |u|;
      |paths| - |ResolveEach(paths, bases, resolve)|
    else
      |paths| - |ResolveEach(paths, bases, resolve)|
  }

  /** Whether `loadProfiles` logs its unresolved-paths warning for a valid config. With a single
      base directory it warns whenever the corrected diagnostic is due. */
  predicate WarnsAsWritten(c: ProfileConfig, bases: seq<Dir>, resolve: Resolver)
    ensures |bases| == 1 && WarningFor(c, bases, resolve) != [] ==> WarnsAsWritten(c, bases, resolve)
  {
    UnresolvedCountAsWritten(c.includedPaths, bases, resolve) > 0
    || UnresolvedCountAsWritten(c.excludedPaths, bases, resolve) > 0
  }

  /** With two base directories, a path that resolves under both hides a path that resolves under
      none: the computed count is 0 and no warning is logged, yet "b" is unresolved. */
  lemma AsWrittenMissesUnresolvedPath()
    ensures var resolve: Resolver := (b: Dir, p: string) => if p == "a" then Some(b + ["a"]) else None;
            var c := ProfileConfig("p", {"a", "b"});
            && !WarnsAsWritten(c, [["x"], ["y"]], resolve)
            && UnresolvedPaths(c.includedPaths, [["x"], ["y"]], resolve) == {"b"}
            && WarningFor(c, [["x"], ["y"]], resolve) == [UnresolvedWarning("p", 1, 0)]
  {
    var resolve: Resolver := (b: Dir, p: string) => if p == "a" then Some(b + ["a"]) else None;
    var bases: seq<Dir> := [["x"], ["y"]];
    var paths := {"a", "b"};
    var resolved := ResolveEach(paths, bases, resolve);
    assert ["x"] + ["a"] == ["x", "a"] && ["y"] + ["a"] == ["y", "a"];
    assert resolve(["x"], "a") == Some(["x", "a"]) && resolve(["y"], "a") == Some(["y", "a"]);
    assert ["x"] in bases && ["y"] in bases;
    assert resolved == {["x", "a"], ["y", "a"]} by {
      forall d | d in resolved ensures d == ["x", "a"] || d == ["y", "a"] {
        var p, b :| p in paths && b in bases && resolve(b, p) == Some(d);
      }
    }
    assert ["x", "a"] != ["y", "a"] by { assert ["x", "a"][0] != ["y", "a"][0]; }
    assert |resolved| == 2;
    assert |paths| == 2;
    var unresolved := UnresolvedPaths(paths, bases, resolve);
    assert "a" !in unresolved;
    assert unresolved == {"b"};
    assert ResolveEach({}, bases, resolve) == {};
  }

  /** The other direction: with one base directory, two paths that resolve to the same directory
      give a computed count of 1 and a warning, yet every path resolves. */
  lemma AsWrittenWarnsWithoutUnresolvedPath()
    ensures var resolve: Resolver := (b: Dir, p: string) => Some(b + ["d"]);
            var c := ProfileConfig("p", {"a", "b"});
            && WarnsAsWritten(c, [["x"]], resolve)
            && UnresolvedPaths(c.includedPaths, [["x"]], resolve) == {}
            && WarningFor(c, [["x"]], resolve) == []
  {
    var resolve: Resolver := (b: Dir, p: string) => Some(b + ["d"]);
    var bases: seq<Dir> := [["x"]];
    var paths := {"a", "b"};
    var resolved := ResolveEach(paths, bases, resolve);
    assert ["x"] + ["d"] == ["x", "d"];
    assert ["x"] in bases && resolve(["x"], "a") == Some(["x", "d"]);
    assert resolved == {["x", "d"]} by {
      forall d | d in resolved ensures d == ["x", "d"] {
        var p, b :| p in paths && b in bases && resolve(b, p) == Some(d);
      }
    }
    assert |paths| == 2;
    assert UnresolvedPaths(paths, bases, resolve) == {} by {
      forall p | p in paths ensures p !in UnresolvedPaths(paths, bases, resolve) {
        assert resolve(["x"], p).Some?;
      }
    }
    assert ResolveEach({}, bases, resolve) == {};
  }

  /** Resolving one path alone gives nothing exactly when it resolves under no base directory. */
  lemma SinglePathResolvesToNothing(p: string, bases: seq<Dir>, resolve: Resolver)
    ensures ResolveEach({p}, bases, resolve) == {} <==> forall b :: b in bases ==> resolve(b, p).None?
  {
    if exists b :: b in bases && resolve(b, p).Some? {
      var b :| b in bases && resolve(b, p).Some?;
      assert resolve(b, p).value in ResolveEach({p}, bases, resolve);
    }
  }

  /** A path is unresolved exactly when resolving it alone gives no directory, and leaving the
      unresolved paths out changes no resolved set. */
  lemma UnresolvedPathsResolveToNothing(paths: set<string>, bases: seq<Dir>, resolve: Resolver)
    ensures forall p :: p in UnresolvedPaths(paths, bases, resolve) <==>
      p in paths && ResolveEach({p}, bases, resolve) == {}
    ensures ResolveEach(paths - UnresolvedPaths(paths, bases, resolve), bases, resolve) == ResolveEach(paths, bases, resolve)
  {
    var u := UnresolvedPaths(paths, bases, resolve);
    forall p ensures p in u <==> p in paths && ResolveEach({p}, bases, resolve) == {} {
      SinglePathResolvesToNothing(p, bases, resolve);
    }
    ResolveEachUnion(paths - u, u, bases, resolve);
    assert paths == (paths - u) + u;
    assert ResolveEach(u, bases, resolve) == {};
  }

  /** What one config contributes to the profiles: its profile if it is valid. */
  function ProfileOf(c: ProfileConfig, bases: seq<Dir>, resolve: Resolver): seq<Profile> {
    if Validate(c).None? then [ToProfile(c, bases, resolve)] else []
  }

  /** What one config contributes to the diagnostics: its warning if it is valid. */
  function WarningOf(c: ProfileConfig, bases: seq<Dir>, resolve: Resolver): seq<UnresolvedWarning> {
    if Validate(c).None? then WarningFor(c, bases, resolve) else []
  }

  /** The profiles the valid configs of `cs` become, in input order. */
  function ValidProfiles(cs: seq<ProfileConfig>, bases: seq<Dir>, resolve: Resolver): seq<Profile> {
    if cs == [] then []
    else ProfileOf(cs[0], bases, resolve) + ValidProfiles(cs[1..], bases, resolve)
  }

  /** How many configs of `cs` fail validation. */
  function InvalidCount(cs: seq<ProfileConfig>): nat {
    if cs == [] then 0
    else (if Validate(cs[0]).Some? then 1 else 0) + InvalidCount(cs[1..])
  }

  /** The unresolved-path diagnostics of the valid configs of `cs`, in input order. */
  function Warnings(cs: seq<ProfileConfig>, bases: seq<Dir>, resolve: Resolver): seq<UnresolvedWarning> {
    if cs == [] then []
    else WarningOf(cs[0], bases, resolve) + Warnings(cs[1..], bases, resolve)
  }

  /** Processing a list of configs is processing its parts one after the other: the profiles keep
      the order of their configs. */
  lemma {:induction false} ProfilesSplit(cs1: seq<ProfileConfig>, cs2: seq<ProfileConfig>, bases: seq<Dir>, resolve: Resolver)
    ensures ValidProfiles(cs1 + cs2, bases, resolve) == ValidProfiles(cs1, bases, resolve) + ValidProfiles(cs2, bases, resolve)
  {
    if cs1 == [] {
      assert cs1 + cs2 == cs2;
    } else {
      assert (cs1 + cs2)[0] == cs1[0] && (cs1 + cs2)[1..] == cs1[1..] + cs2;
      ProfilesSplit(cs1[1..], cs2, bases, resolve);
    }
  }

  lemma {:induction false} InvalidCountSplits(cs1: seq<ProfileConfig>, cs2: seq<ProfileConfig>)
    ensures InvalidCount(cs1 + cs2) == InvalidCount(cs1) + InvalidCount(cs2)
  {
    if cs1 == [] {
      assert cs1 + cs2 == cs2;
    } else {
      assert (cs1 + cs2)[0] == cs1[0] && (cs1 + cs2)[1..] == cs1[1..] + cs2;
      InvalidCountSplits(cs1[1..], cs2);
    }
  }

  lemma {:induction false} WarningsSplit(cs1: seq<ProfileConfig>, cs2: seq<ProfileConfig>, bases: seq<Dir>, resolve: Resolver)
    ensures Warnings(cs1 + cs2, bases, resolve) == Warnings(cs1, bases, resolve) + Warnings(cs2, bases, resolve)
  {
    if cs1 == [] {
      assert cs1 + cs2 == cs2;
    } else {
      assert (cs1 + cs2)[0] == cs1[0] && (cs1 + cs2)[1..] == cs1[1..] + cs2;
      WarningsSplit(cs1[1..], cs2, bases, resolve);
    }
  }

  /** Processing a single config. */
  lemma ProcessingOne(c: ProfileConfig, bases: seq<Dir>, resolve: Resolver)
    ensures ValidProfiles([c], bases, resolve) == if Validate(c).None? then [ToProfile(c, bases, resolve)] else []
    ensures InvalidCount([c]) == if Validate(c).Some? then 1 else 0
    ensures Warnings([c], bases, resolve) == if Validate(c).None? then WarningFor(c, bases, resolve) else []
  {
    assert [c][1..] == [];
  }

  /** Every config is either turned into a profile or counted as invalid. */
  lemma {:induction false} ProfilesPlusInvalidIsConfigs(cs: seq<ProfileConfig>, bases: seq<Dir>, resolve: Resolver)
    ensures |ValidProfiles(cs, bases, resolve)| + InvalidCount(cs) == |cs|
  {
    if cs != [] {
      ProfilesPlusInvalidIsConfigs(cs[1..], bases, resolve);
    }
  }

  /** The profiles are exactly the resolutions of the valid configs. */
  lemma {:induction false} ValidProfilesMembers(cs: seq<ProfileConfig>, bases: seq<Dir>, resolve: Resolver)
    ensures forall p :: p in ValidProfiles(cs, bases, resolve) <==>
      exists i :: 0 <= i < |cs| && ValidConfig(cs[i]) && p == ToProfile(cs[i], bases, resolve)
  {
    if cs != [] {
      ValidProfilesMembers(cs[1..], bases, resolve);
      forall p ensures p in ValidProfiles(cs, bases, resolve) <==>
        exists i :: 0 <= i < |cs| && ValidConfig(cs[i]) && p == ToProfile(cs[i], bases, resolve)
      {
        if p in ValidProfiles(cs[1..], bases, resolve) {
          var i :| 0 <= i < |cs[1..]| && ValidConfig(cs[1..][i]) && p == ToProfile(cs[1..][i], bases, resolve);
          assert cs[i + 1] == cs[1..][i];
        }
        if exists i :: 0 <= i < |cs| && ValidConfig(cs[i]) && p == ToProfile(cs[i], bases, resolve) {
          var i :| 0 <= i < |cs| && ValidConfig(cs[i]) && p == ToProfile(cs[i], bases, resolve);
          if i > 0 { assert cs[1..][i - 1] == cs[i]; }
        }
      }
    }
  }

  /** `loadProfiles` as a function of the file's document. */
  function LoadedProfiles(document: Option<string>, parse: string -> Option<seq<ProfileConfig>>,
                          bases: seq<Dir>, resolve: Resolver): seq<Profile>
  {
    if document.None? || IsBlank(document.value) then []
    else match parse(document.value)
      case None => []
      case Some(configs) => ValidProfiles(configs, bases, resolve)
  }

  /** Every loaded profile comes from a valid config of the document and keeps its name, which is
      therefore never blank. */
  lemma LoadedProfilesAreValid(document: Option<string>, parse: string -> Option<seq<ProfileConfig>>,
                               bases: seq<Dir>, resolve: Resolver, p: Profile)
    requires p in LoadedProfiles(document, parse, bases, resolve)
    ensures document.Some? && !IsBlank(document.value) && parse(document.value).Some?
    ensures exists c :: c in parse(document.value).value && ValidConfig(c) && p == ToProfile(c, bases, resolve)
    ensures !IsBlank(p.name)
  {
    var configs := parse(document.value).value;
    ValidProfilesMembers(configs, bases, resolve);
    var i :| 0 <= i < |configs| && ValidConfig(configs[i]) && p == ToProfile(configs[i], bases, resolve);
    assert configs[i] in configs;
  }

  /** A document holding only a config with a blank name (`name: ""`) yields no profile. */
  lemma BlankNameYieldsNoProfile(text: string, parse: string -> Option<seq<ProfileConfig>>,
                                 bases: seq<Dir>, resolve: Resolver, c: ProfileConfig)
    requires parse(text) == Some([c]) && IsBlank(c.name)
    ensures LoadedProfiles(Some(text), parse, bases, resolve) == []
  {
    ProcessingOne(c, bases, resolve);
  }

  /** A document holding only a config with no path at all yields no profile, while one with only
      excluded paths yields its profile. */
  lemma PathlessConfigRejected(text: string, parse: string -> Option<seq<ProfileConfig>>,
                               bases: seq<Dir>, resolve: Resolver, name: string, excluded: set<string>)
    requires !IsBlank(text) && !IsBlank(name)
    requires forall p :: p in excluded ==> !IsBlank(p)
    ensures parse(text) == Some([ProfileConfig(name, {}, {})]) ==> LoadedProfiles(Some(text), parse, bases, resolve) == []
    ensures excluded != {} && parse(text) == Some([ProfileConfig(name, {}, excluded)]) ==>
      LoadedProfiles(Some(text), parse, bases, resolve) == [ToProfile(ProfileConfig(name, {}, excluded), bases, resolve)]
  {
    ProcessingOne(ProfileConfig(name, {}, {}), bases, resolve);
    ProcessingOne(ProfileConfig(name, {}, excluded), bases, resolve);
  }

  /** Taking one more config of the list into account. */
  lemma LoadStep(configs: seq<ProfileConfig>, i: nat, bases: seq<Dir>, resolve: Resolver)
    requires i < |configs|
    ensures ValidProfiles(configs[..i + 1], bases, resolve) == ValidProfiles(configs[..i], bases, resolve) + ProfileOf(configs[i], bases, resolve)
    ensures InvalidCount(configs[..i + 1]) == InvalidCount(configs[..i]) + if Validate(configs[i]).Some? then 1 else 0
    ensures Warnings(configs[..i + 1], bases, resolve) == Warnings(configs[..i], bases, resolve) + WarningOf(configs[i], bases, resolve)
  {
    var c := configs[i];
    assert configs[..i + 1] == configs[..i] + [c];
    ProfilesSplit(configs[..i], [c], bases, resolve);
    InvalidCountSplits(configs[..i], [c]);
    WarningsSplit(configs[..i], [c], bases, resolve);
    ProcessingOne(c, bases, resolve);
  }

  /** The loop of `loadProfiles` over the decoded configs: every config is validated in order; an
      invalid one is counted, a valid one is resolved into a profile and, when some of its paths do
      not resolve, gets a diagnostic. */
  method ProcessConfigs(configs: seq<ProfileConfig>, bases: seq<Dir>, resolve: Resolver)
    returns (profiles: seq<Profile>, invalidCount: nat, warnings: seq<UnresolvedWarning>)
    ensures profiles == ValidProfiles(configs, bases, resolve)
    ensures invalidCount == InvalidCount(configs)
    ensures |profiles| + invalidCount == |configs|
    ensures warnings == Warnings(configs, bases, resolve)
  {
    profiles, invalidCount, warnings := [], 0, [];
    for i := 0 to |configs|
      invariant profiles == ValidProfiles(configs[..i], bases, resolve)
      invariant invalidCount == InvalidCount(configs[..i])
      invariant warnings == Warnings(configs[..i], bases, resolve)
    {
      var config := configs[i];
      LoadStep(configs, i, bases, resolve);
      var validationError := Validate(config);
      if validationError.Some? {
        invalidCount := invalidCount + 1;
      } else {
        var resolvedIncluded := ResolveEach(config.includedPaths, bases, resolve);
        var resolvedExcluded := ResolveEach(config.excludedPaths, bases, resolve);
        var unresolvedIncluded := |UnresolvedPaths(config.includedPaths, bases, resolve)|;
        var unresolvedExcluded := |UnresolvedPaths(config.excludedPaths, bases, resolve)|;
        assert WarningOf(config, bases, resolve) == WarningFor(config, bases, resolve);
        if unresolvedIncluded > 0 || unresolvedExcluded > 0 {
          warnings := warnings + [UnresolvedWarning(config.name, unresolvedIncluded, unresolvedExcluded)];
        }
        assert ProfileOf(config, bases, resolve) == [ToProfile(config, bases, resolve)];
        profiles := profiles + [Profile(config.name, resolvedIncluded, resolvedExcluded)];
      }
    }
    assert configs[..|configs|] == configs;
    ProfilesPlusInvalidIsConfigs(configs, bases, resolve);
  }

  /** `loadProfiles`: the profiles of one file, the number of invalid configs in it, and the
      diagnostics for profiles with unresolved paths. Unreadable or blank content and a parse
      failure give nothing; otherwise the decoded configs go through `ProcessConfigs`. */
  method LoadProfiles(document: Option<string>, parse: string -> Option<seq<ProfileConfig>>,
                      bases: seq<Dir>, resolve: Resolver)
    returns (profiles: seq<Profile>, invalidCount: nat, warnings: seq<UnresolvedWarning>)
    ensures profiles == LoadedProfiles(document, parse, bases, resolve)
    ensures document.None? || IsBlank(document.value) || parse(document.value).None? ==>
      profiles == [] && invalidCount == 0 && warnings == []
    ensures document.Some? && !IsBlank(document.value) && parse(document.value).Some? ==>
      var configs := parse(document.value).value;
      && invalidCount == InvalidCount(configs)
      && |profiles| + invalidCount == |configs|
      && warnings == Warnings(configs, bases, resolve)
  {
    profiles, invalidCount, warnings := [], 0, [];
    if document.None? {
      return;
    }
    var content := document.value;
    if IsBlank(content) {
      return;
    }
    var parsed := parse(content);
    if parsed.None? {
      return;
    }
    profiles, invalidCount, warnings := ProcessConfigs(parsed.value, bases, resolve);
  }

  /** `flatMap { loadProfiles(project, it) }` over the profile files, before `toSet()`. */
  function AllLoaded(documents: seq<Option<string>>, parse: string -> Option<seq<ProfileConfig>>,
                     bases: seq<Dir>, resolve: Resolver): (r: seq<Profile>)
    ensures forall p :: p in r <==> exists i :: 0 <= i < |documents| && p in LoadedProfiles(documents[i], parse, bases, resolve)
  {
    if documents == [] then []
    else
      var rest := AllLoaded(documents[1..], parse, bases, resolve);
      AllLoadedCons(documents, parse, bases, resolve, rest);
      LoadedProfiles(documents[0], parse, bases, resolve) + rest
  }

  /** The step of `AllLoaded`: the first file's profiles followed by those of the other files. */
  lemma AllLoadedCons(documents: seq<Option<string>>, parse: string -> Option<seq<ProfileConfig>>,
                      bases: seq<Dir>, resolve: Resolver, rest: seq<Profile>)
    requires |documents| > 0
    requires forall p :: p in rest <==>
      exists j :: 0 <= j < |documents| - 1 && p in LoadedProfiles(documents[1..][j], parse, bases, resolve)
    ensures forall p :: p in LoadedProfiles(documents[0], parse, bases, resolve) + rest <==>
      exists i :: 0 <= i < |documents| && p in LoadedProfiles(documents[i], parse, bases, resolve)
  {
    forall p ensures p in LoadedProfiles(documents[0], parse, bases, resolve) + rest <==>
      exists i :: 0 <= i < |documents| && p in LoadedProfiles(documents[i], parse, bases, resolve)
    {
      if p in rest {
        var j :| 0 <= j < |documents| - 1 && p in LoadedProfiles(documents[1..][j], parse, bases, resolve);
        assert documents[1..][j] == documents[j + 1];
      }
      if exists i :: 0 <= i < |documents| && p in LoadedProfiles(documents[i], parse, bases, resolve) {
        var i :| 0 <= i < |documents| && p in LoadedProfiles(documents[i], parse, bases, resolve);
        if i > 0 {
          assert documents[i] == documents[1..][i - 1];
        }
      }
    }
  }

  /** `loadConfigs`: the profiles of all profile files, each once, in the order of first
      appearance in the files' concatenated lists. */
  function LoadConfigs(documents: seq<Option<string>>, parse: string -> Option<seq<ProfileConfig>>,
                       bases: seq<Dir>, resolve: Resolver): (r: seq<Profile>)
    ensures forall p :: p in r <==> exists i :: 0 <= i < |documents| && p in LoadedProfiles(documents[i], parse, bases, resolve)
    ensures NoDuplicates(r)
    ensures InFirstOccurrenceOrder(AllLoaded(documents, parse, bases, resolve), r)
  {
    DistinctInOrderFollowsFirstOccurrence(AllLoaded(documents, parse, bases, resolve));
    DistinctInOrder(AllLoaded(documents, parse, bases, resolve))
  }

  /** Every gathered profile has a non-blank name. */
  lemma LoadConfigsNamesNotBlank(documents: seq<Option<string>>, parse: string -> Option<seq<ProfileConfig>>,
                                 bases: seq<Dir>, resolve: Resolver)
    ensures forall p :: p in LoadConfigs(documents, parse, bases, resolve) ==> !IsBlank(p.name)
  {
    forall p | p in LoadConfigs(documents, parse, bases, resolve) ensures !IsBlank(p.name) {
      var i :| 0 <= i < |documents| && p in LoadedProfiles(documents[i], parse, bases, resolve);
      LoadedProfilesAreValid(documents[i], parse, bases, resolve, p);
    }
  }
}
