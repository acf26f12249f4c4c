/**
 * Building the catalog of mods from manifest data: every entry of every
 * manifest object becomes one mod, keyed by its id, carrying its group's
 * authors and its own, and its versions keyed by semver with their artifacts in
 * manifest order. An artifact without an install location gets the category's
 * default: "/Libraries" for plugins.
 *
 * The manifest's mod record has no installed version, activity flag,
 * changelog or override filename; the catalog leaves those absent (None and
 * false).
 */
module Catalog {
  import opened Wrappers
  import opened Mods
  import opened Manifest

  /** `build_mod_authors`: each (name, details) pair as a mod author, in order. */
  function BuildModAuthors(authors: ManifestAuthors): (r: seq<ModAuthor>)
    ensures |r| == |authors|
    ensures forall i :: 0 <= i < |r| ==>
      r[i].name == authors[i].0 && r[i].url == authors[i].1.url && r[i].icon == authors[i].1.icon && r[i].support == authors[i].1.support
  {
    if authors == [] then []
    else [ModAuthor(authors[0].0, authors[0].1.url, authors[0].1.icon, authors[0].1.support)] + BuildModAuthors(authors[1..])
  }

  /** `ModArtifact::from_manifest_and_category`. */
  function FromManifestAndCategory(a: ManifestEntryArtifact, category: string): (r: ModArtifact)
    ensures r.url == a.url && r.sha256 == a.sha256 && r.filename == a.filename && r.overrideFilename == None
    ensures a.installLocation.Some? ==> r.installLocation == a.installLocation
    ensures a.installLocation.None? ==> (r.installLocation == Some("/Libraries") <==> category == "Plugins")
    ensures a.installLocation.None? && category != "Plugins" ==> r.installLocation == None
  {
    ModArtifact(a.url, a.sha256, a.filename, if a.installLocation.Some? then a.installLocation else if category == "Plugins" then Some("/Libraries") else None, None)
  }

  /** `From<ManifestEntryArtifact> for ModArtifact`: the four fields as they are, no category default. */
  function FromManifest(a: ManifestEntryArtifact): (r: ModArtifact)
    ensures r.url == a.url && r.sha256 == a.sha256 && r.filename == a.filename && r.installLocation == a.installLocation
    ensures r.overrideFilename == None
  {
    ModArtifact(a.url, a.sha256, a.filename, a.installLocation, None)
  }

  /** Both conversions agree exactly when the artifact names its own location or its category gives none. */
  lemma CategoryDefaultOnly(a: ManifestEntryArtifact, category: string)
    ensures FromManifestAndCategory(a, category) == FromManifest(a) <==> a.installLocation.Some? || category != "Plugins"
  {
  }

  /** `build_mod_version_artifacts`: each artifact converted with the category default, in order. */
  function BuildModVersionArtifacts(arts: seq<ManifestEntryArtifact>, category: string): (r: seq<ModArtifact>)
    ensures |r| == |arts|
    ensures forall i :: 0 <= i < |r| ==> r[i] == FromManifestAndCategory(arts[i], category)
  {
    if arts == [] then []
    else [FromManifestAndCategory(arts[0], category)] + BuildModVersionArtifacts(arts[1..], category)
  }

  /** `build_mod_version_dependencies`: mod ids to version requirements, empty when absent. */
  function BuildModVersionDependencies(deps: Option<map<string, ManifestEntryDependency>>): (r: map<string, string>)
    ensures deps.None? ==> r == map[]
    ensures deps.Some? ==> r.Keys == deps.value.Keys && forall id :: id in r ==> r[id] == deps.value[id].version
  {
    match deps
    case None => map[]
    case Some(d) => map id | id in d :: d[id].version
  }

  /** One manifest version as a mod version. */
  function BuildModVersion(semver: string, v: ManifestEntryVersion, category: string): ModVersion {
    ModVersion(semver, BuildModVersionArtifacts(v.artifacts, category), BuildModVersionDependencies(v.dependencies),
      BuildModVersionDependencies(v.conflicts), v.releaseUrl, None)
  }

  /** `build_mod_versions_map`: one version per manifest version, each under its own semver. */
  function BuildModVersionsMap(versions: map<string, ManifestEntryVersion>, category: string): (r: map<string, ModVersion>)
    ensures r.Keys == versions.Keys
    ensures forall s :: s in r ==>
      && r[s].semver == s
      && |r[s].artifacts| == |versions[s].artifacts|
      && (forall i :: 0 <= i < |r[s].artifacts| ==> r[s].artifacts[i] == FromManifestAndCategory(versions[s].artifacts[i], category))
      && r[s].dependencies == BuildModVersionDependencies(versions[s].dependencies)
      && r[s].conflicts == BuildModVersionDependencies(versions[s].conflicts)
      && r[s].releaseUrl == versions[s].releaseUrl
  {
    map s | s in versions :: BuildModVersion(s, versions[s], category)
  }

  /** One manifest entry as a mod: the group's authors followed by the entry's own. */
  function BuildMod(groupAuthors: seq<ModAuthor>, id: string, e: ManifestEntry): (m: ResoluteMod)
    ensures m.id == id
    ensures m.authors == groupAuthors + (if e.additionalAuthors.Some? then BuildModAuthors(e.additionalAuthors.value) else [])
    ensures m.name == e.name && m.description == e.description && m.category == e.category
    ensures m.sourceLocation == e.sourceLocation && m.website == e.website
    ensures m.tags == e.tags && m.flags == e.flags && m.platforms == e.platforms
    ensures m.versions == BuildModVersionsMap(e.versions, e.category)
    ensures m.installedVersion == None && !m.active
  {
    var authors := if e.additionalAuthors.Some? then groupAuthors + BuildModAuthors(e.additionalAuthors.value) else groupAuthors;
    ResoluteMod(id, e.name, e.description, e.category, authors, e.sourceLocation, e.website, e.tags, e.flags, e.platforms,
      BuildModVersionsMap(e.versions, e.category), None, false)
  }

  /** The mods of one manifest object, by id. */
  function ObjectMods(o: ManifestObject): map<string, ResoluteMod> {
    var group := BuildModAuthors(o.authors);
    map id | id in o.entries :: BuildMod(group, id, o.entries[id])
  }

  /** The mods of the given objects, an id met again in a later object replacing the earlier mod. */
  function LoadObjects(objects: seq<ManifestObject>): ModMap
    decreases |objects|
  {
    if objects == [] then map[]
    else LoadObjects(objects[..|objects| - 1]) + ObjectMods(objects[|objects| - 1])
  }

  /** `load_manifest`: the mod map of the manifest's objects, in iteration order. */
  function LoadManifest(data: ManifestData): ModMap {
    LoadObjects(data.objects)
  }

  /** Every entry of every object becomes a mod under its own id, and nothing else does. */
  lemma {:induction false} LoadObjectsMembers(objects: seq<ManifestObject>, id: string)
    ensures id in LoadObjects(objects) <==> exists i :: 0 <= i < |objects| && id in objects[i].entries
    decreases |objects|
  {
    if objects != [] {
      var n := |objects| - 1;
      var init := objects[..n];
      LoadObjectsMembers(init, id);
      assert forall i :: 0 <= i < n ==> init[i] == objects[i];
    }
  }

  /** When several objects list an id, the mod is built from the last one's entry and group authors. */
  lemma {:induction false} LoadObjectsLast(objects: seq<ManifestObject>, id: string, i: nat)
    requires i < |objects| && id in objects[i].entries
    requires forall j :: i < j < |objects| ==> id !in objects[j].entries
    ensures id in LoadObjects(objects)
    ensures LoadObjects(objects)[id] == BuildMod(BuildModAuthors(objects[i].authors), id, objects[i].entries[id])
    decreases |objects|
  {
    var n := |objects| - 1;
    var init := objects[..n];
    if i < n {
      assert init[i] == objects[i];
      LoadObjectsLast(init, id, i);
    }
  }

  /** The loaded map is keyed by the mods' own ids. */
  lemma {:induction false} LoadObjectsKeyed(objects: seq<ManifestObject>)
    ensures forall id :: id in LoadObjects(objects) ==> LoadObjects(objects)[id].id == id
    decreases |objects|
  {
    if objects != [] {
      LoadObjectsKeyed(objects[..|objects| - 1]);
    }
  }
}
