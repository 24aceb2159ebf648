/** The two records of the plugin: a profile as written in `monorepo-profiles.yaml`, and a
    profile whose path strings have been resolved to directories. */
module Model {
  import opened Vfs

  /** `Constants.PROFILE_FILE_NAME`, the name every profile file carries. */
  const ProfileFileName: string := "monorepo-profiles.yaml"

  /** Kotlin's 32-bit `Int`. */
  newtype Int32 = x: int | -0x8000_0000 <= x < 0x8000_0000

  /** `data class ProfileConfig`: a profile document as decoded. `excludedPaths` and `priority` take
      their Kotlin defaults when a document omits them; `name` and `includedPaths` have none. The
      path collections are sets, so a repeated entry is kept once. */
  datatype ProfileConfig = ProfileConfig(
    name: string,
    includedPaths: set<string>,
    excludedPaths: set<string> := {},
    priority: Int32 := 0)

  /** `data class Profile`: a name and the resolved included and excluded directories. It has no
      priority, and, being a datatype, it is immutable and compared structurally. */
  datatype Profile = Profile(name: string, includedPaths: set<Dir>, excludedPaths: set<Dir>)

  /** A config written with only its two mandatory fields gets the defaults. */
  lemma OmittedFieldsTakeDefaults(name: string, included: set<string>)
    ensures ProfileConfig(name, included).excludedPaths == {}
    ensures ProfileConfig(name, included).priority == 0
    ensures ProfileConfig(name, included) == ProfileConfig(name, included, {}, 0)
  {
  }
}
