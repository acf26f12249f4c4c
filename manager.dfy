/**
 * `ModManager`, the entry point for mod operations that are persisted: it owns
 * a `Downloader` and a `Deleter` that share one base directory, and the
 * database of mod records keyed by mod id. Installing, updating and
 * uninstalling check the mod's versions first, run the engines, and write the
 * database only after the files were changed successfully.
 */
module Manager {
  import opened Wrappers
  import opened StdPath
  import opened Mods
  import opened Errors
  import opened ManagerPaths
  import opened FileSystem
  import opened Download
  import opened Delete
  import opened DownloadProperties
  import opened InstallProperties
  import opened Hex

  /** The result of a manager operation, the files afterwards and the database afterwards. */
  datatype Outcome = Outcome(result: Result<(), Error>, files: Files, db: ModMap, progress: seq<Progress>)

  /** Every record is stored under its own id, as the database's primary key makes it. */
  predicate Keyed(db: ModMap) {
    forall id :: id in db ==> db[id].id == id
  }

  /** `store_mod`: insert the record, replacing any record with the same id. */
  function Store(db: ModMap, rmod: ResoluteMod): (r: ModMap)
    ensures Keyed(db) ==> Keyed(r)
    ensures rmod.id in r && r[rmod.id] == rmod
    ensures forall id :: id != rmod.id ==> (id in r <==> id in db) && (id in db ==> r[id] == db[id])
  {
    db[rmod.id := rmod]
  }

  /** `get_installed_mods`: the records that have an installed version, by id. */
  function InstalledMods(db: ModMap): (r: ModMap)
    ensures forall id :: id in r <==> id in db && db[id].installedVersion.Some?
    ensures forall id :: id in r ==> r[id] == db[id]
  {
    map id | id in db && db[id].installedVersion.Some? :: db[id]
  }

  /** The mods of `mods`, each given the installed version recorded for its id in `installed`, if any. */
  function Marked(mods: ModMap, installed: ModMap): ModMap {
    map id | id in mods :: if id in installed then mods[id].(installedVersion := installed[id].installedVersion) else mods[id]
  }

  /** The version a mod says is installed: `ModNotInstalled` without one, `UnknownVersion` when its key is missing. */
  function InstalledVersionOf(rmod: ResoluteMod): (r: Result<ModVersion, Error>)
    ensures r.Ok? <==> rmod.installedVersion.Some? && rmod.installedVersion.value in rmod.versions
    ensures r.Ok? ==> r.value == rmod.versions[rmod.installedVersion.value]
    ensures rmod.installedVersion.None? ==> r == Err(ModNotInstalled(rmod))
    ensures rmod.installedVersion.Some? && rmod.installedVersion.value !in rmod.versions ==>
      r == Err(UnknownVersion(rmod.id, rmod.installedVersion.value))
  {
    match rmod.installedVersion
    case None => Err(ModNotInstalled(rmod))
    case Some(key) => if key in rmod.versions then Ok(rmod.versions[key]) else Err(UnknownVersion(rmod.id, key))
  }

  /** `ModManager::install_mod`: look the version up, install it, then record it as installed. */
  function InstallModSpec(files: Files, env: Env, db: ModMap, rmod: ResoluteMod, version: string): Outcome {
    if version !in rmod.versions then Outcome(Err(UnknownVersion(rmod.id, version)), files, db, [])
    else
      var v := rmod.versions[version];
      var f := DownloadVersionSpec(files, env, v);
      Outcome(f.result, f.files, if f.result.Ok? then Store(db, rmod.(installedVersion := Some(v.semver))) else db, f.progress)
  }

  /** `ModManager::uninstall_mod`: find the installed version, delete its artifacts, then forget the record. */
  function UninstallModSpec(files: Files, faults: Faults, base: Path, db: ModMap, rmod: ResoluteMod): Outcome {
    match InstalledVersionOf(rmod)
    case Err(e) => Outcome(Err(e), files, db, [])
    case Ok(v) =>
      var (res, after) := DeleteVersionSpec(files, faults, base, v);
      if res.Err? then Outcome(Err(Artifacts(res.error)), after, db, [])
      else Outcome(Ok(()), after, db - {rmod.id}, [])
  }

  /**
   * What `delete_artifacts_diff` promises: a resolution error (new artifacts
   * first) leaves the files alone; otherwise exactly the old paths the new
   * artifacts do not have are removed, and the failures are reported.
   */
  ghost predicate DiffDeleted(before: Files, after: Files, faults: Faults, base: Path, oldArts: seq<ModArtifact>, newArts: seq<ModArtifact>, r: Result<(), Error>) {
    match ResolveAll(base, newArts)
    case Err(e) => r == Err(e) && after == before
    case Ok(keep) =>
      match ResolveAll(base, oldArts)
      case Err(e) => r == Err(e) && after == before
      case Ok(had) =>
        && after == Removed(before, faults, had - keep)
        && (r.Ok? <==> forall p :: p in had - keep ==> !HardFault(faults, p))
        && (r.Err? ==> r.error.Artifacts? && exists order :: IsEnumeration(order, had - keep) && r.error.errors == HardErrors(faults, order))
  }

  // ---- Properties ----

  /**
   * Installing succeeds exactly when the version is known and the download
   * succeeds; only then is the database written, and then the mod reads as
   * installed at the chosen version's semver while every other record stays.
   */
  lemma InstallModRecords(files: Files, env: Env, db: ModMap, rmod: ResoluteMod, version: string)
    ensures InstallModSpec(files, env, db, rmod, version).result.Ok? <==>
      version in rmod.versions && DownloadVersionSpec(files, env, rmod.versions[version]).result.Ok?
    ensures InstallModSpec(files, env, db, rmod, version).result.Err? ==> InstallModSpec(files, env, db, rmod, version).db == db
    ensures InstallModSpec(files, env, db, rmod, version).result.Ok? ==>
      var installed := InstalledMods(InstallModSpec(files, env, db, rmod, version).db);
      && rmod.id in installed
      && installed[rmod.id].installedVersion == Some(rmod.versions[version].semver)
      && (forall id :: id != rmod.id ==> (id in installed <==> id in InstalledMods(db)) && (id in installed ==> installed[id] == db[id]))
  {
  }

  /**
   * When every artifact of the chosen version stages and can be moved into
   * place, installing the mod succeeds, leaves each artifact's checked file at
   * its final path, and records the version.
   */
  lemma InstallModCommits(files: Files, env: Env, db: ModMap, rmod: ResoluteMod, version: string)
    requires version in rmod.versions
    requires AllStaged(StageOf(env), rmod.versions[version].artifacts)
    requires Separate(StagedPaths(StageOf(env), rmod.versions[version].artifacts))
    requires FinalsMovable(env.faults, StagedPaths(StageOf(env), rmod.versions[version].artifacts))
    requires FirstTmpRenameFault(env.faults, StagedPaths(StageOf(env), rmod.versions[version].artifacts), |rmod.versions[version].artifacts|)
    ensures InstallModSpec(files, env, db, rmod, version).result == Ok(())
    ensures InstallModSpec(files, env, db, rmod, version).db[rmod.id].installedVersion == Some(rmod.versions[version].semver)
    ensures forall k :: 0 <= k < |rmod.versions[version].artifacts| ==>
      var ps, after := StagedPaths(StageOf(env), rmod.versions[version].artifacts)[k], InstallModSpec(files, env, db, rmod, version).files;
      && ps.finalDest in after
      && ChecksumMatches(env.sha(after[ps.finalDest]), rmod.versions[version].artifacts[k].sha256)
      && ps.tmpDest !in after
  {
    InstallSucceeds(files, env, rmod.versions[version]);
  }

  /**
   * Uninstalling succeeds exactly when the installed version is known and every
   * one of its artifacts resolves and is removed or already missing; the record
   * is dropped only then, and otherwise the database is untouched.
   */
  lemma UninstallModForgets(files: Files, faults: Faults, base: Path, db: ModMap, rmod: ResoluteMod)
    ensures UninstallModSpec(files, faults, base, db, rmod).result.Ok? <==>
      && InstalledVersionOf(rmod).Ok?
      && forall k :: 0 <= k < |InstalledVersionOf(rmod).value.artifacts| ==>
           && DestWithin(InstalledVersionOf(rmod).value.artifacts[k], base).Ok?
           && !HardFault(faults, DestWithin(InstalledVersionOf(rmod).value.artifacts[k], base).value)
    ensures UninstallModSpec(files, faults, base, db, rmod).result.Ok? ==>
      UninstallModSpec(files, faults, base, db, rmod).db == db - {rmod.id}
    ensures UninstallModSpec(files, faults, base, db, rmod).result.Err? ==> UninstallModSpec(files, faults, base, db, rmod).db == db
    ensures InstalledVersionOf(rmod).Ok? ==>
      UninstallModSpec(files, faults, base, db, rmod).files == Removed(files, faults, Targets(base, InstalledVersionOf(rmod).value.artifacts))
    ensures InstalledVersionOf(rmod).Err? ==> UninstallModSpec(files, faults, base, db, rmod).files == files
  {
    if InstalledVersionOf(rmod).Ok? {
      DeleteVersionOutcome(files, faults, base, InstalledVersionOf(rmod).value);
    }
  }

  /** Marking keeps the key set, and changes nothing but the installed version of the mods found installed. */
  lemma MarkedOverlays(mods: ModMap, installed: ModMap)
    ensures Marked(mods, installed).Keys == mods.Keys
    ensures forall id :: id in mods ==>
      && Marked(mods, installed)[id].installedVersion == (if id in installed then installed[id].installedVersion else mods[id].installedVersion)
      && Marked(mods, installed)[id] == mods[id].(installedVersion := Marked(mods, installed)[id].installedVersion)
  {
  }

  /** Marking twice with the same installed mods is marking once. */
  lemma MarkedIdempotent(mods: ModMap, installed: ModMap)
    ensures Marked(Marked(mods, installed), installed) == Marked(mods, installed)
  {
    var once := Marked(mods, installed);
    var twice := Marked(once, installed);
    assert twice.Keys == once.Keys;
    forall id | id in once
      ensures twice[id] == once[id]
    {
    }
  }

  /** After installing, marking any catalog that lists the mod shows the installed version. */
  lemma InstallThenMark(files: Files, env: Env, db: ModMap, rmod: ResoluteMod, version: string, mods: ModMap)
    requires InstallModSpec(files, env, db, rmod, version).result.Ok?
    requires rmod.id in mods
    ensures Marked(mods, InstalledMods(InstallModSpec(files, env, db, rmod, version).db))[rmod.id].installedVersion
      == Some(rmod.versions[version].semver)
  {
    InstallModRecords(files, env, db, rmod, version);
  }

  /**
   * Marking does not check the copied version against the catalog's versions:
   * a record installed at "1.0.0" marks a catalog entry that only knows "2.0.0"
   * with a version key it cannot look up.
   */
  lemma MarkedMayNameMissingVersion(m: ResoluteMod, v2: ModVersion)
    requires m.versions == map["2.0.0" := v2] && m.installedVersion == None
    ensures var marked := Marked(map[m.id := m], InstalledMods(map[m.id := m.(installedVersion := Some("1.0.0"))]));
      marked[m.id].installedVersion == Some("1.0.0") && "1.0.0" !in marked[m.id].versions
  {
    var db := map[m.id := m.(installedVersion := Some("1.0.0"))];
    assert m.id in InstalledMods(db);
    assert "1.0.0" != "2.0.0";
  }

  // ---- The manager ----

  /** `ModManager`: the downloader and deleter it drives, and the database of mod records. */
  class ModManager {
    const downloader: Downloader
    const deleter: Deleter
    var db: ModMap

    /** The downloader and deleter install under the same directory, and records are keyed by id. */
    ghost predicate Valid()
      reads this, downloader, deleter
    {
      downloader.baseDest == deleter.baseDest && Keyed(db)
    }

    /** `ModManager::new`. */
    constructor(store: ModMap, base: Path, httpClient: string -> HttpOutcome)
      requires Keyed(store)
      ensures Valid()
      ensures downloader.baseDest == base && deleter.baseDest == base && downloader.client == httpClient && db == store
    {
      downloader := new Downloader(base, httpClient);
      deleter := new Deleter(base);
      db := store;
    }

    /** `ModManager::set_base_dest`: both engines move to the new directory together. */
    method SetBaseDest(path: Path)
      requires Valid()
      modifies downloader, deleter
      ensures Valid()
      ensures downloader.baseDest == path && deleter.baseDest == path
      ensures db == old(db)
    {
      downloader.baseDest := path;
      deleter.baseDest := path;
    }

    /** `ModManager::mark_installed_mods`: give each mod of the map the installed version the database records for it. */
    method MarkInstalledMods(mods: ModMap) returns (marked: ModMap)
      ensures marked.Keys == mods.Keys
      ensures forall id :: id in mods ==>
        && marked[id].installedVersion == (if id in db && db[id].installedVersion.Some? then db[id].installedVersion else mods[id].installedVersion)
        && marked[id] == mods[id].(installedVersion := marked[id].installedVersion)
      ensures marked == Marked(mods, InstalledMods(db))
    {
      var installed := InstalledMods(db);
      marked := mods;
      var pending := mods.Keys;
      while pending != {}
        invariant pending <= mods.Keys && marked.Keys == mods.Keys
        invariant forall id :: id in mods ==> marked[id] == (if id in pending then mods[id] else Marked(mods, installed)[id])
        decreases |pending|
      {
        var id :| id in pending;
        if id in installed {
          marked := marked[id := marked[id].(installedVersion := installed[id].installedVersion)];
        }
        pending := pending - {id};
      }
      MarkedOverlays(mods, installed);
    }

    /** `ModManager::install_mod`. */
    method InstallMod(fs: FileSystem, rmod: ResoluteMod, version: string, sha: Bytes -> Bytes) returns (r: Result<(), Error>, progress: seq<Progress>)
      requires Valid()
      modifies fs, this
      ensures Valid()
      ensures Outcome(r, fs.files, db, progress) == InstallModSpec(old(fs.files), downloader.EnvOf(fs, sha), old(db), rmod, version)
    {
      if version !in rmod.versions {
        return Err(UnknownVersion(rmod.id, version)), [];
      }
      var v := rmod.versions[version];
      r, progress := downloader.DownloadVersion(fs, v, sha);
      if r.Err? {
        return;
      }
      db := Store(db, rmod.(installedVersion := Some(v.semver)));
    }

    /**
     * `ModManager::update_mod`: both version keys are checked before any I/O;
     * the new version is installed by its own semver, and only when that
     * succeeds are the old version's left-over artifacts deleted.
     */
    method UpdateMod(fs: FileSystem, rmod: ResoluteMod, version: string, sha: Bytes -> Bytes) returns (r: Result<(), Error>, progress: seq<Progress>)
      requires Valid()
      modifies fs, this
      ensures Valid()
      ensures InstalledVersionOf(rmod).Err? ==>
        r == Err(InstalledVersionOf(rmod).error) && fs.files == old(fs.files) && db == old(db) && progress == []
      ensures InstalledVersionOf(rmod).Ok? && version !in rmod.versions ==>
        r == Err(UnknownVersion(rmod.id, version)) && fs.files == old(fs.files) && db == old(db) && progress == []
      ensures InstalledVersionOf(rmod).Ok? && version in rmod.versions ==>
        var installed := InstallModSpec(old(fs.files), downloader.EnvOf(fs, sha), old(db), rmod, rmod.versions[version].semver);
        && db == installed.db && progress == installed.progress
        && (installed.result.Err? ==> r == installed.result && fs.files == installed.files)
        && (installed.result.Ok? ==>
              DiffDeleted(installed.files, fs.files, fs.faults, deleter.baseDest, InstalledVersionOf(rmod).value.artifacts, rmod.versions[version].artifacts, r))
    {
      var oldVersion := InstalledVersionOf(rmod);
      if oldVersion.Err? {
        return Err(oldVersion.error), [];
      }
      if version !in rmod.versions {
        return Err(UnknownVersion(rmod.id, version)), [];
      }
      var newVersion := rmod.versions[version];
      r, progress := InstallMod(fs, rmod, newVersion.semver, sha);
      if r.Err? {
        return;
      }
      r := deleter.DeleteArtifactsDiff(fs, oldVersion.value.artifacts, newVersion.artifacts);
    }

    /** `ModManager::uninstall_mod`. */
    method UninstallMod(fs: FileSystem, rmod: ResoluteMod) returns (r: Result<(), Error>)
      requires Valid()
      modifies fs, this
      ensures Valid()
      ensures Outcome(r, fs.files, db, []) == UninstallModSpec(old(fs.files), fs.faults, deleter.baseDest, old(db), rmod)
    {
      var installedVersion := InstalledVersionOf(rmod);
      if installedVersion.Err? {
        return Err(installedVersion.error);
      }
      var deleted := deleter.DeleteVersion(fs, installedVersion.value);
      if deleted.Err? {
        return Err(Artifacts(deleted.error));
      }
      db := db - {rmod.id};
      r := Ok(());
    }
  }
}
