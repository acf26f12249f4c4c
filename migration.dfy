/**
 * The first shape of the persisted mod records, kept for database migration,
 * and the conversions between it and the current shape. The current shape adds
 * an `active` flag to mods, a changelog to versions and an override filename to
 * artifacts; converting forward fills them in (active exactly when a version is
 * installed, no changelog, no override), converting back drops them.
 */
module Migration {
  import opened Wrappers
  import opened Mods

  datatype ModArtifactV1 = ModArtifactV1(url: Url, sha256: string, filename: Option<string>, installLocation: Option<string>)

  datatype ModVersionV1 = ModVersionV1(
    semver: string,
    artifacts: seq<ModArtifactV1>,
    dependencies: map<string, string>,
    conflicts: map<string, string>,
    releaseUrl: Option<Url>)

  datatype ResoluteModV1 = ResoluteModV1(
    id: string,
    name: string,
    description: string,
    category: string,
    authors: seq<ModAuthor>,
    sourceLocation: Option<Url>,
    website: Option<Url>,
    tags: Option<seq<string>>,
    flags: Option<seq<string>>,
    platforms: Option<seq<string>>,
    versions: map<string, ModVersionV1>,
    installedVersion: Option<string>)

  // ---- First to current ----

  /** `From<v1::ModArtifact> for ModArtifact`. */
  function ArtifactToV2(a: ModArtifactV1): (r: ModArtifact)
    ensures r.overrideFilename == None
  {
    ModArtifact(a.url, a.sha256, a.filename, a.installLocation, None)
  }

  /** `From<v1::ModVersion> for ModVersion`. */
  function VersionToV2(v: ModVersionV1): (r: ModVersion)
    ensures r.changelog == None && |r.artifacts| == |v.artifacts|
  {
    ModVersion(v.semver, seq(|v.artifacts|, i requires 0 <= i < |v.artifacts| => ArtifactToV2(v.artifacts[i])),
      v.dependencies, v.conflicts, v.releaseUrl, None)
  }

  /** `From<v1::ResoluteMod> for ResoluteMod`. */
  function ModToV2(m: ResoluteModV1): (r: ResoluteMod)
    ensures r.active <==> m.installedVersion.Some?
    ensures r.installedVersion == m.installedVersion
    ensures r.versions.Keys == m.versions.Keys
  {
    ResoluteMod(m.id, m.name, m.description, m.category, m.authors, m.sourceLocation, m.website, m.tags, m.flags, m.platforms,
      map k | k in m.versions :: VersionToV2(m.versions[k]), m.installedVersion, m.installedVersion.Some?)
  }

  // ---- Current to first ----

  /** `From<ModArtifact> for v1::ModArtifact`. */
  function ArtifactToV1(a: ModArtifact): ModArtifactV1 {
    ModArtifactV1(a.url, a.sha256, a.filename, a.installLocation)
  }

  /** `From<ModVersion> for v1::ModVersion`. */
  function VersionToV1(v: ModVersion): (r: ModVersionV1)
    ensures |r.artifacts| == |v.artifacts|
  {
    ModVersionV1(v.semver, seq(|v.artifacts|, i requires 0 <= i < |v.artifacts| => ArtifactToV1(v.artifacts[i])),
      v.dependencies, v.conflicts, v.releaseUrl)
  }

  /** `From<ResoluteMod> for v1::ResoluteMod`. */
  function ModToV1(m: ResoluteMod): (r: ResoluteModV1)
    ensures r.installedVersion == m.installedVersion
    ensures r.versions.Keys == m.versions.Keys
  {
    ResoluteModV1(m.id, m.name, m.description, m.category, m.authors, m.sourceLocation, m.website, m.tags, m.flags, m.platforms,
      map k | k in m.versions :: VersionToV1(m.versions[k]), m.installedVersion)
  }

  // ---- Round trips ----

  /** An artifact converted forward and back is the artifact it was. */
  lemma ArtifactRoundTrip(a: ModArtifactV1)
    ensures ArtifactToV1(ArtifactToV2(a)) == a
  {
  }

  /** A version converted forward and back is the version it was: same artifacts, in the same order. */
  lemma VersionRoundTrip(v: ModVersionV1)
    ensures VersionToV1(VersionToV2(v)) == v
  {
    var back := VersionToV1(VersionToV2(v));
    assert back.artifacts == v.artifacts by {
      forall i | 0 <= i < |v.artifacts|
        ensures back.artifacts[i] == v.artifacts[i]
      {
        ArtifactRoundTrip(v.artifacts[i]);
      }
    }
  }

  /** A first-shape record converted to the current shape and back is the record it was, field for field. */
  lemma ModRoundTrip(m: ResoluteModV1)
    ensures ModToV1(ModToV2(m)) == m
  {
    var back := ModToV1(ModToV2(m));
    assert back.versions == m.versions by {
      forall k | k in m.versions
        ensures back.versions[k] == m.versions[k]
      {
        VersionRoundTrip(m.versions[k]);
      }
    }
  }

  /**
   * A current record converted back and forward again loses exactly what the
   * first shape cannot hold: `active` becomes "a version is installed", and the
   * changelogs and override filenames are cleared; everything else is kept.
   */
  lemma ModBackAndForth(m: ResoluteMod)
    ensures ModToV2(ModToV1(m)) == Cleared(m)
  {
    var again := ModToV2(ModToV1(m));
    assert again.versions == Cleared(m).versions by {
      forall k | k in m.versions
        ensures again.versions[k] == ClearedVersion(m.versions[k])
      {
        var v := m.versions[k];
        assert VersionToV2(VersionToV1(v)).artifacts == ClearedVersion(v).artifacts;
      }
    }
  }

  /** A version with its changelog and its artifacts' override filenames removed. */
  function ClearedVersion(v: ModVersion): (r: ModVersion)
    ensures r.changelog == None && |r.artifacts| == |v.artifacts|
    ensures forall i :: 0 <= i < |r.artifacts| ==> r.artifacts[i] == v.artifacts[i].(overrideFilename := None)
  {
    v.(changelog := None, artifacts := seq(|v.artifacts|, i requires 0 <= i < |v.artifacts| => v.artifacts[i].(overrideFilename := None)))
  }

  /** A record with what the first shape cannot hold reset: `active` derived, changelogs and override filenames cleared. */
  function Cleared(m: ResoluteMod): (r: ResoluteMod)
    ensures r.active <==> m.installedVersion.Some?
    ensures r.versions.Keys == m.versions.Keys
    ensures forall k :: k in r.versions ==> r.versions[k] == ClearedVersion(m.versions[k])
  {
    m.(active := m.installedVersion.Some?, versions := map k | k in m.versions :: ClearedVersion(m.versions[k]))
  }

  /** Records that agree except in what the first shape drops convert back to the same first-shape record. */
  lemma ModToV1Forgets(m: ResoluteMod)
    ensures ModToV1(Cleared(m)) == ModToV1(m)
  {
    var a := ModToV1(Cleared(m));
    var b := ModToV1(m);
    assert a.versions == b.versions by {
      forall k | k in m.versions
        ensures a.versions[k] == b.versions[k]
      {
        assert VersionToV1(ClearedVersion(m.versions[k])).artifacts == VersionToV1(m.versions[k]).artifacts;
      }
    }
  }
}
