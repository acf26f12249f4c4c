/**
 * The mod data model: a mod with its versions keyed by semver string, each
 * version with its ordered artifacts. This is the current (second) shape of the
 * persisted records, the one the mod manager and the v1 migration work with.
 */
module Mods {
  import opened Wrappers

  /** A parsed URL: its serialisation and its path (`Url::path`, percent-encoded). */
  datatype Url = Url(text: string, path: string)

  datatype ModAuthor = ModAuthor(name: string, url: Option<Url>, icon: Option<Url>, support: Option<Url>)

  /** One downloadable file of a version. */
  datatype ModArtifact = ModArtifact(
    url: Url,
    sha256: string,
    filename: Option<string>,
    installLocation: Option<string>,
    overrideFilename: Option<string>)

  /** A released version: its artifacts in declared order and its mod id to version-requirement maps. */
  datatype ModVersion = ModVersion(
    semver: string,
    artifacts: seq<ModArtifact>,
    dependencies: map<string, string>,
    conflicts: map<string, string>,
    releaseUrl: Option<Url>,
    changelog: Option<string>)

  datatype ResoluteMod = ResoluteMod(
    id: string,
    name: string,
    description: string,
    category: string,
    authors: seq<ModAuthor>,
    sourceLocation: Option<Url>,
    website: Option<Url>,
    tags: Option<seq<string>>,
    flags: Option<seq<string>>,
    platforms: Option<seq<string>>,
    versions: map<string, ModVersion>,
    installedVersion: Option<string>,
    active: bool)

  /** Mods keyed by id. */
  type ModMap = map<string, ResoluteMod>
}
