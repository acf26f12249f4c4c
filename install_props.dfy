/**
 * What `download_version` guarantees for a whole mod version, composed from the
 * per-artifact and per-loop facts:
 *
 *  - a failed download cancels every artifact downloaded before it and touches
 *    nothing but `.new` files;
 *  - when every download succeeds and nothing obstructs the renames, every
 *    artifact ends up in its final place with bytes matching its checksum;
 *  - when moving an artifact into place fails, every artifact moved before it
 *    is put back as it was, the failing one is left half-moved, and the rest
 *    keep their downloaded `.new` files.
 *
 * The results are first shown for the install over any per-artifact step with
 * the four properties of `DownloadProperties` (`InstallWith`), then for the
 * artifact download itself (`DownloadVersionSpec`). The whole-version results
 * assume the artifacts' paths are separate (no two artifacts of the version
 * share a final, `.new` or `.old` path); nothing in the engine checks this.
 */
module InstallProperties {
  import opened Wrappers
  import opened StdPath
  import opened Mods
  import opened Errors
  import opened ManagerPaths
  import opened FileSystem
  import opened Hex
  import opened Download
  import opened DownloadProperties

  type Step = (Files, ModArtifact) -> Staged

  /** A step's outcome for an artifact; for a `FilesIndependent` step it is the same whatever files are there. */
  function Outcome(stage: Step, a: ModArtifact): Result<ArtifactPaths, Error> {
    stage(map[], a).result
  }

  /** The four properties the whole-version results need of a step. */
  ghost predicate WellBehaved(stage: Step, resolve: ModArtifact -> Result<ArtifactPaths, Error>, sha: Bytes -> Bytes) {
    ReturnsPaths(stage, resolve) && TouchesTmpOnly(stage, resolve) && FilesIndependent(stage) && VerifiesTmp(stage, sha)
  }

  /** Every artifact of the list downloads successfully. */
  predicate AllStaged(stage: Step, arts: seq<ModArtifact>) {
    forall k :: 0 <= k < |arts| ==> Outcome(stage, arts[k]).Ok?
  }

  /** The resolved paths of artifacts that all download successfully. */
  function StagedPaths(stage: Step, arts: seq<ModArtifact>): (r: seq<ArtifactPaths>)
    requires AllStaged(stage, arts)
    ensures |r| == |arts|
    ensures forall k :: 0 <= k < |arts| ==> Outcome(stage, arts[k]) == Ok(r[k])
  {
    if arts == [] then []
    else
      assert forall k :: 0 <= k < |arts| - 1 ==> arts[1..][k] == arts[k + 1];
      [Outcome(stage, arts[0]).value] + StagedPaths(stage, arts[1..])
  }

  /** The move into place of artifact `m` is the first one whose `.new` file cannot be renamed (`m == |ds|`: none). */
  predicate FirstTmpRenameFault(faults: Faults, ds: seq<ArtifactPaths>, m: nat) {
    && m <= |ds|
    && (forall k :: 0 <= k < m ==> (RenameOp, ds[k].tmpDest) !in faults)
    && (m < |ds| ==> (RenameOp, ds[m].tmpDest) in faults)
  }

  /** Nothing obstructs moving a replaced file aside. */
  predicate FinalsMovable(faults: Faults, ds: seq<ArtifactPaths>) {
    forall k :: 0 <= k < |ds| ==> (RenameOp, ds[k].finalDest) !in faults
  }

  /**
   * The undo of a finalized artifact can do its job: no `.old` file was there
   * before the install, and deleting the new file and returning the old one
   * are not obstructed.
   */
  predicate UndoUnobstructed(files: Files, faults: Faults, ds: seq<ArtifactPaths>) {
    forall k :: 0 <= k < |ds| ==>
      && ds[k].oldDest !in files
      && (RemoveOp, ds[k].finalDest) !in faults
      && (RenameOp, ds[k].oldDest) !in faults
  }

  // ---- The download phase when every artifact downloads ----

  /** The files after the download phase. */
  function StagedFiles(files: Files, stage: Step, arts: seq<ModArtifact>): Files {
    DownloadFrom(files, stage, arts, 0, [], []).files
  }

  /**
   * When every artifact downloads and their paths are separate, the download
   * phase reports no error, returns the resolved paths of all artifacts, leaves
   * every `.new` file verified, and changes nothing but `.new` files.
   */
  lemma DownloadPhaseAllStaged(files: Files, stage: Step, resolve: ModArtifact -> Result<ArtifactPaths, Error>, sha: Bytes -> Bytes, arts: seq<ModArtifact>)
    requires WellBehaved(stage, resolve, sha)
    requires AllStaged(stage, arts) && Separate(StagedPaths(stage, arts))
    ensures DownloadFrom(files, stage, arts, 0, [], []).error.None?
    ensures DownloadFrom(files, stage, arts, 0, [], []).downloaded == StagedPaths(stage, arts)
    ensures forall k :: 0 <= k < |arts| ==> Verified(StagedFiles(files, stage, arts), arts[k], StagedPaths(stage, arts)[k], sha)
    ensures forall k :: 0 <= k < |arts| ==> StagedPaths(stage, arts)[k].tmpDest in StagedFiles(files, stage, arts)
    ensures forall q :: OutsideTmps(q, StagedPaths(stage, arts), 0) ==> SameAt(StagedFiles(files, stage, arts), files, q)
  {
    var ds := StagedPaths(stage, arts);
    var p := DownloadFrom(files, stage, arts, 0, [], []);
    DownloadPhaseReturnsAll(files, stage, arts);
    StagedTmpsDistinct(stage, resolve, arts);
    DownloadFromVerified(files, stage, resolve, sha, arts, 0, [], []);
    DownloadFromFrame(files, stage, resolve, arts, 0, [], []);
    forall q | OutsideTmps(q, ds, 0) ensures SameAt(p.files, files, q) {
      assert NotStaged(q, resolve, arts, 0, |p.downloaded| + 1);
    }
  }

  /** When every artifact downloads, the download loop returns all their paths and no error. */
  lemma DownloadPhaseReturnsAll(files: Files, stage: Step, arts: seq<ModArtifact>)
    requires FilesIndependent(stage) && AllStaged(stage, arts)
    ensures DownloadFrom(files, stage, arts, 0, [], []).error.None?
    ensures DownloadFrom(files, stage, arts, 0, [], []).downloaded == StagedPaths(stage, arts)
  {
    var ds := StagedPaths(stage, arts);
    var p := DownloadFrom(files, stage, arts, 0, [], []);
    DownloadFromOutcomes(files, stage, arts, 0, [], []);
    forall k | 0 <= k < |arts| ensures stage(files, arts[k]).result == Ok(ds[k]) {
      assert stage(files, arts[k]).result == stage(map[], arts[k]).result;
    }
  }

  /** Separate artifact paths give each artifact its own `.new` path. */
  lemma StagedTmpsDistinct(stage: Step, resolve: ModArtifact -> Result<ArtifactPaths, Error>, arts: seq<ModArtifact>)
    requires ReturnsPaths(stage, resolve) && AllStaged(stage, arts) && Separate(StagedPaths(stage, arts))
    ensures TmpsDistinct(resolve, arts)
  {
    var ds := StagedPaths(stage, arts);
    forall k | 0 <= k < |arts| ensures StagedAt(resolve, arts[k]) == Some(ds[k].tmpDest) {
      assert stage(map[], arts[k]).result.Ok?;
      assert resolve(arts[k]) == Ok(ds[k]);
    }
    forall a, b | 0 <= a < b < |arts| ensures ds[a].tmpDest != ds[b].tmpDest {
      assert Touch(ds[a]) !! Touch(ds[b]);
    }
  }

  // ---- A failed download ----

  /** The install over `stage` when artifact `n` is the first that fails to download. */
  lemma InstallWithCancels(files: Files, stage: Step, resolve: ModArtifact -> Result<ArtifactPaths, Error>, sha: Bytes -> Bytes, faults: Faults, arts: seq<ModArtifact>, n: nat)
    requires WellBehaved(stage, resolve, sha)
    requires n < |arts|
    requires forall k :: 0 <= k < n ==> Outcome(stage, arts[k]).Ok?
    requires Outcome(stage, arts[n]).Err?
    ensures InstallWith(files, stage, faults, arts).result == Err(Outcome(stage, arts[n]).error)
    ensures forall k :: 0 <= k < n && (RemoveOp, Outcome(stage, arts[k]).value.tmpDest) !in faults ==>
      Outcome(stage, arts[k]).value.tmpDest !in InstallWith(files, stage, faults, arts).files
    ensures forall q :: NotStaged(q, resolve, arts, 0, n + 1) ==> SameAt(InstallWith(files, stage, faults, arts).files, files, q)
  {
    InstallWithCancelsResult(files, stage, resolve, sha, faults, arts, n);
    InstallWithCancelsFrame(files, stage, resolve, sha, faults, arts, n);
  }

  /** The download loop stops after the `n` artifacts that stage. */
  lemma CancelPoint(files: Files, stage: Step, resolve: ModArtifact -> Result<ArtifactPaths, Error>, sha: Bytes -> Bytes, arts: seq<ModArtifact>, n: nat)
    requires WellBehaved(stage, resolve, sha)
    requires n < |arts|
    requires forall k :: 0 <= k < n ==> Outcome(stage, arts[k]).Ok?
    requires Outcome(stage, arts[n]).Err?
    ensures |DownloadFrom(files, stage, arts, 0, [], []).downloaded| == n
    ensures forall k :: 0 <= k < |arts| ==> stage(files, arts[k]).result == Outcome(stage, arts[k])
  {
    var p := DownloadFrom(files, stage, arts, 0, [], []);
    DownloadFromOutcomes(files, stage, arts, 0, [], []);
    forall k | 0 <= k < |arts| ensures stage(files, arts[k]).result == Outcome(stage, arts[k]) {
      assert stage(files, arts[k]).result == stage(map[], arts[k]).result;
    }
    assert |p.downloaded| <= n;
  }

  lemma InstallWithCancelsResult(files: Files, stage: Step, resolve: ModArtifact -> Result<ArtifactPaths, Error>, sha: Bytes -> Bytes, faults: Faults, arts: seq<ModArtifact>, n: nat)
    requires WellBehaved(stage, resolve, sha)
    requires n < |arts|
    requires forall k :: 0 <= k < n ==> Outcome(stage, arts[k]).Ok?
    requires Outcome(stage, arts[n]).Err?
    ensures InstallWith(files, stage, faults, arts).result == Err(Outcome(stage, arts[n]).error)
    ensures forall k :: 0 <= k < n && (RemoveOp, Outcome(stage, arts[k]).value.tmpDest) !in faults ==>
      Outcome(stage, arts[k]).value.tmpDest !in InstallWith(files, stage, faults, arts).files
  {
    var p := DownloadFrom(files, stage, arts, 0, [], []);
    CancelPoint(files, stage, resolve, sha, arts, n);
    DownloadFromOutcomes(files, stage, arts, 0, [], []);
    var r := CancelFrom(p.files, faults, p.downloaded, 0);
    assert InstallWith(files, stage, faults, arts).files == r;
    CancelFromShape(p.files, faults, p.downloaded, 0);
    DownloadFromShape(files, stage, resolve, arts, 0, [], []);
  }

  lemma InstallWithCancelsFrame(files: Files, stage: Step, resolve: ModArtifact -> Result<ArtifactPaths, Error>, sha: Bytes -> Bytes, faults: Faults, arts: seq<ModArtifact>, n: nat)
    requires WellBehaved(stage, resolve, sha)
    requires n < |arts|
    requires forall k :: 0 <= k < n ==> Outcome(stage, arts[k]).Ok?
    requires Outcome(stage, arts[n]).Err?
    ensures forall q :: NotStaged(q, resolve, arts, 0, n + 1) ==> SameAt(InstallWith(files, stage, faults, arts).files, files, q)
  {
    var p := DownloadFrom(files, stage, arts, 0, [], []);
    CancelPoint(files, stage, resolve, sha, arts, n);
    var r := CancelFrom(p.files, faults, p.downloaded, 0);
    assert InstallWith(files, stage, faults, arts).files == r;
    CancelFromShape(p.files, faults, p.downloaded, 0);
    DownloadFromShape(files, stage, resolve, arts, 0, [], []);
    DownloadFromFrame(files, stage, resolve, arts, 0, [], []);
    forall q | NotStaged(q, resolve, arts, 0, n + 1) ensures SameAt(r, files, q) {
      forall k | 0 <= k < n ensures q != p.downloaded[k].tmpDest {
        assert resolve(arts[k]) == Ok(p.downloaded[k]);
        assert StagedAt(resolve, arts[k]) != Some(q);
      }
      assert OutsideTmps(q, p.downloaded, 0);
      assert SameAt(r, p.files, q);
      assert NotStaged(q, resolve, arts, 0, |p.downloaded| + 1);
      assert SameAt(p.files, files, q);
    }
  }

  // ---- The finalize phase ----

  /**
   * With every `.new` file present and no replaced file obstructed, the
   * finalize loop moves exactly the artifacts before the first one whose
   * `.new` file cannot be renamed, and fails with that rename's error.
   */
  lemma FinalizePhaseStopsAt(files: Files, faults: Faults, ds: seq<ArtifactPaths>, m: nat)
    requires Separate(ds) && FinalsMovable(faults, ds) && FirstTmpRenameFault(faults, ds, m)
    requires forall k :: 0 <= k < |ds| ==> ds[k].tmpDest in files
    ensures FinalizeFrom(files, faults, ds, 0, []).finalized == ds[..m]
    ensures m == |ds| ==> FinalizeFrom(files, faults, ds, 0, []).error.None?
    ensures m < |ds| ==> FinalizeFrom(files, faults, ds, 0, []).error == Some(Io(faults[(RenameOp, ds[m].tmpDest)]))
  {
    var p := FinalizeFrom(files, faults, ds, 0, []);
    FinalizeFromShape(files, faults, ds, 0, []);
    if |p.finalized| > m {
      FinalizeFromAt(files, faults, ds, 0, [], m);
      FinalizeOneOkIff(files, faults, ds[m]);
      assert false;
    }
    if |p.finalized| < m {
      FinalizeFromFailed(files, faults, ds, 0, []);
      FinalizeOneOkIff(files, faults, ds[|p.finalized|]);
      assert false;
    }
    assert p.finalized == ds[..m];
    if m < |ds| {
      FinalizeFromFailed(files, faults, ds, 0, []);
      FinalizeOneOkIff(files, faults, ds[m]);
    }
  }

  /**
   * Where the finalize phase leaves each artifact: what finalizing it alone
   * would leave, for the artifacts it reached, and the files before it for the
   * others.
   */
  lemma FinalizePhaseAt(files: Files, faults: Faults, ds: seq<ArtifactPaths>, m: nat, k: nat)
    requires Separate(ds) && FinalsMovable(faults, ds) && FirstTmpRenameFault(faults, ds, m)
    requires forall j :: 0 <= j < |ds| ==> ds[j].tmpDest in files
    requires k < |ds|
    ensures k <= m ==> AgreeOn(FinalizeFrom(files, faults, ds, 0, []).files, FinalizeOne(files, faults, ds[k]).files, Touch(ds[k]))
    ensures k > m ==> AgreeOn(FinalizeFrom(files, faults, ds, 0, []).files, files, Touch(ds[k]))
  {
    FinalizePhaseStopsAt(files, faults, ds, m);
    var p := FinalizeFrom(files, faults, ds, 0, []);
    if k < m {
      FinalizeFromAt(files, faults, ds, 0, [], k);
    } else if k == m {
      FinalizeFromFailed(files, faults, ds, 0, []);
    } else {
      FinalizeFromFrame(files, faults, ds, 0, []);
      forall q | q in Touch(ds[k]) ensures SameAt(p.files, files, q) {
        forall j | 0 <= j < m + 1 && j < |ds| ensures q !in Touch(ds[j]) {
          assert Touch(ds[j]) !! Touch(ds[k]);
        }
        assert OutsideRange(q, ds, 0, |p.finalized| + 1);
      }
    }
  }

  /** A path of artifact `k`'s is no other artifact's `.new` path, so the download phase leaves it as it was. */
  lemma OwnPathNotStaged(files: Files, stage: Step, resolve: ModArtifact -> Result<ArtifactPaths, Error>, sha: Bytes -> Bytes, arts: seq<ModArtifact>, k: nat, q: Path)
    requires WellBehaved(stage, resolve, sha)
    requires AllStaged(stage, arts) && Separate(StagedPaths(stage, arts))
    requires k < |arts| && q in Touch(StagedPaths(stage, arts)[k]) && q != StagedPaths(stage, arts)[k].tmpDest
    ensures SameAt(StagedFiles(files, stage, arts), files, q)
  {
    var ds := StagedPaths(stage, arts);
    DownloadPhaseAllStaged(files, stage, resolve, sha, arts);
    forall j | 0 <= j < |ds| ensures q != ds[j].tmpDest {
      if j != k {
        assert Touch(ds[j]) !! Touch(ds[k]);
      }
    }
    assert OutsideTmps(q, ds, 0);
  }

  /** A path outside every artifact's paths is none of their `.new` and none of their `.old` paths. */
  lemma OutsideEach(q: Path, ds: seq<ArtifactPaths>)
    requires OutsideRange(q, ds, 0, |ds|)
    ensures OutsideTmps(q, ds, 0) && OutsideOlds(q, ds, 0)
  {
    forall k | 0 <= k < |ds| ensures q != ds[k].tmpDest && q != ds[k].oldDest {
      assert q !in Touch(ds[k]);
    }
  }

  // ---- The commit half: finalize, then undo or clean up ----

  /** Every artifact's `.new` file is verified against its declared checksum. */
  predicate AllVerified(files: Files, arts: seq<ModArtifact>, ds: seq<ArtifactPaths>, sha: Bytes -> Bytes) {
    |arts| == |ds| && forall k :: 0 <= k < |ds| ==> Verified(files, arts[k], ds[k], sha)
  }

  /**
   * With every `.new` file verified and no rename obstructed, the commit
   * succeeds; each artifact's final place then holds bytes matching its
   * checksum, no `.new` file is left, and nothing outside the artifacts' paths
   * changes.
   */
  lemma CommitSucceeds(files: Files, faults: Faults, ds: seq<ArtifactPaths>, arts: seq<ModArtifact>, sha: Bytes -> Bytes)
    requires Separate(ds) && FinalsMovable(faults, ds) && FirstTmpRenameFault(faults, ds, |ds|)
    requires AllVerified(files, arts, ds, sha)
    ensures CommitSpec(files, faults, ds).result == Ok(())
    ensures forall k :: 0 <= k < |ds| ==>
      && ds[k].finalDest in CommitSpec(files, faults, ds).files
      && ChecksumMatches(sha(CommitSpec(files, faults, ds).files[ds[k].finalDest]), arts[k].sha256)
      && ds[k].tmpDest !in CommitSpec(files, faults, ds).files
    ensures forall q :: OutsideRange(q, ds, 0, |ds|) ==> SameAt(CommitSpec(files, faults, ds).files, files, q)
  {
    var m := |ds|;
    assert forall j :: 0 <= j < |ds| ==> ds[j].tmpDest in files;
    FinalizePhaseStopsAt(files, faults, ds, m);
    assert ds[..m] == ds;
    var p2 := FinalizeFrom(files, faults, ds, 0, []);
    var r := DeleteOldsFrom(p2.files, faults, ds, 0).files;
    assert CommitSpec(files, faults, ds).files == r;
    DeleteOldsFromShape(p2.files, faults, ds, 0);
    forall k | 0 <= k < m
      ensures ds[k].finalDest in r && ChecksumMatches(sha(r[ds[k].finalDest]), arts[k].sha256)
      ensures ds[k].tmpDest !in r
    {
      FinalizedInPlace(files, faults, ds, sha, arts, k);
      forall j | 0 <= j < m ensures ds[k].finalDest != ds[j].oldDest && ds[k].tmpDest != ds[j].oldDest {
        if j != k {
          assert Touch(ds[j]) !! Touch(ds[k]);
        }
      }
      assert OutsideOlds(ds[k].finalDest, ds, 0) && OutsideOlds(ds[k].tmpDest, ds, 0);
    }
    FinalizePhaseFrame(files, faults, ds);
    forall q | OutsideRange(q, ds, 0, m) ensures SameAt(r, files, q) {
      OutsideEach(q, ds);
      assert SameAt(r, p2.files, q);
    }
  }

  /** The finalize phase changes nothing outside the artifacts' paths. */
  lemma FinalizePhaseFrame(files: Files, faults: Faults, ds: seq<ArtifactPaths>)
    ensures forall q :: OutsideRange(q, ds, 0, |ds|) ==> SameAt(FinalizeFrom(files, faults, ds, 0, []).files, files, q)
  {
    var p2 := FinalizeFrom(files, faults, ds, 0, []);
    FinalizeFromFrame(files, faults, ds, 0, []);
    forall q | OutsideRange(q, ds, 0, |ds|) ensures SameAt(p2.files, files, q) {
      assert OutsideRange(q, ds, 0, |p2.finalized| + 1);
    }
  }

  /** Undoing the first `m` artifacts changes nothing outside the artifacts' paths. */
  lemma UndoPrefixFrame(files: Files, faults: Faults, ds: seq<ArtifactPaths>, m: nat)
    requires m <= |ds|
    ensures forall q :: OutsideRange(q, ds, 0, |ds|) ==> SameAt(UndoFrom(files, faults, ds[..m], 0), files, q)
  {
    UndoFromFrame(files, faults, ds[..m], 0);
    forall q | OutsideRange(q, ds, 0, |ds|) ensures SameAt(UndoFrom(files, faults, ds[..m], 0), files, q) {
      assert OutsideRange(q, ds[..m], 0, m) by {
        forall j | 0 <= j < m ensures q !in Touch(ds[..m][j]) {
          assert ds[..m][j] == ds[j];
        }
      }
    }
  }

  /** After a finalize phase with no failure, artifact `k`'s verified bytes are in its final place and its `.new` file is gone. */
  lemma FinalizedInPlace(files: Files, faults: Faults, ds: seq<ArtifactPaths>, sha: Bytes -> Bytes, arts: seq<ModArtifact>, k: nat)
    requires Separate(ds) && FinalsMovable(faults, ds) && FirstTmpRenameFault(faults, ds, |ds|)
    requires AllVerified(files, arts, ds, sha) && k < |ds|
    ensures var f := FinalizeFrom(files, faults, ds, 0, []).files;
      && ds[k].finalDest in f && ChecksumMatches(sha(f[ds[k].finalDest]), arts[k].sha256)
      && ds[k].tmpDest !in f
  {
    assert forall j :: 0 <= j < |ds| ==> ds[j].tmpDest in files;
    FinalizePhaseAt(files, faults, ds, |ds|, k);
    FinalizeOneOkIff(files, faults, ds[k]);
    FinalizeOneSuccess(files, faults, ds[k]);
  }

  /**
   * When artifact `m`'s `.new` file is the first that cannot be moved into
   * place, the commit fails with that rename's error, undoes exactly the
   * artifacts before `m`, and changes nothing outside the artifacts' paths.
   */
  lemma CommitFails(files: Files, faults: Faults, ds: seq<ArtifactPaths>, m: nat)
    requires Separate(ds) && FinalsMovable(faults, ds) && FirstTmpRenameFault(faults, ds, m) && m < |ds|
    requires forall j :: 0 <= j < |ds| ==> ds[j].tmpDest in files
    ensures CommitSpec(files, faults, ds).result == Err(Io(faults[(RenameOp, ds[m].tmpDest)]))
    ensures CommitSpec(files, faults, ds).files == UndoFrom(FinalizeFrom(files, faults, ds, 0, []).files, faults, ds[..m], 0)
    ensures forall q :: OutsideRange(q, ds, 0, |ds|) ==> SameAt(CommitSpec(files, faults, ds).files, files, q)
  {
    FinalizePhaseStopsAt(files, faults, ds, m);
    var p2 := FinalizeFrom(files, faults, ds, 0, []);
    var r := UndoFrom(p2.files, faults, ds[..m], 0);
    assert CommitSpec(files, faults, ds).files == r;
    FinalizePhaseFrame(files, faults, ds);
    UndoPrefixFrame(p2.files, faults, ds, m);
    forall q | OutsideRange(q, ds, 0, |ds|) ensures SameAt(r, files, q) {
      assert SameAt(r, p2.files, q);
    }
  }

  /** The undo loop over the first `m` artifacts leaves a path of artifact `k >= m` as it was. */
  lemma UndoSparesLater(files: Files, faults: Faults, ds: seq<ArtifactPaths>, m: nat, k: nat, q: Path)
    requires Separate(ds) && m <= k < |ds| && q in Touch(ds[k])
    ensures SameAt(UndoFrom(files, faults, ds[..m], 0), files, q)
  {
    UndoFromFrame(files, faults, ds[..m], 0);
    forall j | 0 <= j < m ensures q !in Touch(ds[..m][j]) {
      assert Touch(ds[j]) !! Touch(ds[k]);
    }
    assert OutsideRange(q, ds[..m], 0, m);
  }

  /**
   * After a failed commit, artifact `k` moved into place before the failing one
   * is put back: its final place is as before, and neither a `.new` nor an
   * `.old` file is left, provided the undo is unobstructed.
   */
  lemma CommitRollsBack(files: Files, faults: Faults, ds: seq<ArtifactPaths>, m: nat, k: nat)
    requires Separate(ds) && FinalsMovable(faults, ds) && FirstTmpRenameFault(faults, ds, m) && m < |ds|
    requires forall j :: 0 <= j < |ds| ==> ds[j].tmpDest in files
    requires UndoUnobstructed(files, faults, ds) && k < m
    ensures SameAt(CommitSpec(files, faults, ds).files, files, ds[k].finalDest)
    ensures ds[k].oldDest !in CommitSpec(files, faults, ds).files
    ensures ds[k].tmpDest !in CommitSpec(files, faults, ds).files
  {
    CommitFails(files, faults, ds, m);
    var f2 := FinalizeFrom(files, faults, ds, 0, []).files;
    var fin := ds[..m];
    var r := UndoFrom(f2, faults, fin, 0);
    assert Separate(fin) by {
      forall a, b | 0 <= a < b < |fin| ensures Touch(fin[a]) !! Touch(fin[b]) {
        assert fin[a] == ds[a] && fin[b] == ds[b];
      }
    }
    UndoFromAt(f2, faults, fin, 0);
    assert AgreeOn(r, UndoOne(f2, faults, ds[k]), Touch(ds[k])) by {
      assert fin[k] == ds[k];
    }
    FinalizePhaseAt(files, faults, ds, m, k);
    var d := FinalizeOne(files, faults, ds[k]);
    UndoOneCongruent(f2, d.files, faults, ds[k]);
    FinalizeOneOkIff(files, faults, ds[k]);
    UndoRestores(files, faults, ds[k]);
  }

  /**
   * After a failed commit, the failing artifact `m` is not put back: its final
   * place is empty, the file it replaced (if any) stays under its `.old` name,
   * and its `.new` file stays as it was.
   */
  lemma CommitStrands(files: Files, faults: Faults, ds: seq<ArtifactPaths>, m: nat)
    requires Separate(ds) && FinalsMovable(faults, ds) && FirstTmpRenameFault(faults, ds, m) && m < |ds|
    requires forall j :: 0 <= j < |ds| ==> ds[j].tmpDest in files
    ensures ds[m].finalDest !in CommitSpec(files, faults, ds).files
    ensures ds[m].finalDest in files ==>
      ds[m].oldDest in CommitSpec(files, faults, ds).files && CommitSpec(files, faults, ds).files[ds[m].oldDest] == files[ds[m].finalDest]
    ensures SameAt(CommitSpec(files, faults, ds).files, files, ds[m].tmpDest)
  {
    CommitFails(files, faults, ds, m);
    var f2 := FinalizeFrom(files, faults, ds, 0, []).files;
    FinalizePhaseAt(files, faults, ds, m, m);
    HalfFinalizeStrands(files, faults, ds[m]);
    UndoSparesLater(f2, faults, ds, m, m, ds[m].finalDest);
    UndoSparesLater(f2, faults, ds, m, m, ds[m].oldDest);
    UndoSparesLater(f2, faults, ds, m, m, ds[m].tmpDest);
  }

  /** After a failed commit, an artifact `k` after the failing one is neither moved nor cleaned up. */
  lemma CommitKeepsRest(files: Files, faults: Faults, ds: seq<ArtifactPaths>, m: nat, k: nat)
    requires Separate(ds) && FinalsMovable(faults, ds) && FirstTmpRenameFault(faults, ds, m) && m < k < |ds|
    requires forall j :: 0 <= j < |ds| ==> ds[j].tmpDest in files
    ensures AgreeOn(CommitSpec(files, faults, ds).files, files, Touch(ds[k]))
  {
    CommitFails(files, faults, ds, m);
    var f2 := FinalizeFrom(files, faults, ds, 0, []).files;
    FinalizePhaseAt(files, faults, ds, m, k);
    forall q | q in Touch(ds[k]) ensures SameAt(CommitSpec(files, faults, ds).files, files, q) {
      UndoSparesLater(f2, faults, ds, m, k, q);
    }
  }

  // ---- The whole install over a step ----

  /** When the download phase reports no error, the install is the commit of what it downloaded. */
  lemma InstallWithCommits(files: Files, stage: Step, resolve: ModArtifact -> Result<ArtifactPaths, Error>, sha: Bytes -> Bytes, faults: Faults, arts: seq<ModArtifact>)
    requires WellBehaved(stage, resolve, sha)
    requires AllStaged(stage, arts) && Separate(StagedPaths(stage, arts))
    ensures InstallWith(files, stage, faults, arts).result == CommitSpec(StagedFiles(files, stage, arts), faults, StagedPaths(stage, arts)).result
    ensures InstallWith(files, stage, faults, arts).files == CommitSpec(StagedFiles(files, stage, arts), faults, StagedPaths(stage, arts)).files
    ensures AllVerified(StagedFiles(files, stage, arts), arts, StagedPaths(stage, arts), sha)
    ensures forall j :: 0 <= j < |arts| ==> StagedPaths(stage, arts)[j].tmpDest in StagedFiles(files, stage, arts)
  {
    DownloadPhaseAllStaged(files, stage, resolve, sha, arts);
  }

  /** The install over `stage` when every artifact downloads and no rename is obstructed. */
  lemma InstallWithSucceeds(files: Files, stage: Step, resolve: ModArtifact -> Result<ArtifactPaths, Error>, sha: Bytes -> Bytes, faults: Faults, arts: seq<ModArtifact>)
    requires WellBehaved(stage, resolve, sha)
    requires AllStaged(stage, arts) && Separate(StagedPaths(stage, arts))
    requires FinalsMovable(faults, StagedPaths(stage, arts))
    requires FirstTmpRenameFault(faults, StagedPaths(stage, arts), |arts|)
    ensures InstallWith(files, stage, faults, arts).result == Ok(())
    ensures forall k :: 0 <= k < |arts| ==>
      && StagedPaths(stage, arts)[k].finalDest in InstallWith(files, stage, faults, arts).files
      && ChecksumMatches(sha(InstallWith(files, stage, faults, arts).files[StagedPaths(stage, arts)[k].finalDest]), arts[k].sha256)
      && StagedPaths(stage, arts)[k].tmpDest !in InstallWith(files, stage, faults, arts).files
    ensures forall q :: OutsideRange(q, StagedPaths(stage, arts), 0, |arts|) ==>
      SameAt(InstallWith(files, stage, faults, arts).files, files, q)
  {
    var ds := StagedPaths(stage, arts);
    var f1 := StagedFiles(files, stage, arts);
    InstallWithCommits(files, stage, resolve, sha, faults, arts);
    CommitSucceeds(f1, faults, ds, arts, sha);
    DownloadPhaseAllStaged(files, stage, resolve, sha, arts);
    forall q | OutsideRange(q, ds, 0, |arts|) ensures SameAt(InstallWith(files, stage, faults, arts).files, files, q) {
      OutsideEach(q, ds);
    }
  }

  /** The install over `stage` when artifact `m`'s `.new` file is the first that cannot be moved into place. */
  lemma InstallWithFinalizeFails(files: Files, stage: Step, resolve: ModArtifact -> Result<ArtifactPaths, Error>, sha: Bytes -> Bytes, faults: Faults, arts: seq<ModArtifact>, m: nat)
    requires WellBehaved(stage, resolve, sha)
    requires AllStaged(stage, arts) && Separate(StagedPaths(stage, arts))
    requires FinalsMovable(faults, StagedPaths(stage, arts))
    requires FirstTmpRenameFault(faults, StagedPaths(stage, arts), m) && m < |arts|
    ensures InstallWith(files, stage, faults, arts).result == Err(Io(faults[(RenameOp, StagedPaths(stage, arts)[m].tmpDest)]))
    ensures forall q :: OutsideRange(q, StagedPaths(stage, arts), 0, |arts|) ==>
      SameAt(InstallWith(files, stage, faults, arts).files, files, q)
  {
    var ds := StagedPaths(stage, arts);
    InstallWithCommits(files, stage, resolve, sha, faults, arts);
    CommitFails(StagedFiles(files, stage, arts), faults, ds, m);
    DownloadPhaseAllStaged(files, stage, resolve, sha, arts);
    forall q | OutsideRange(q, ds, 0, |arts|) ensures SameAt(InstallWith(files, stage, faults, arts).files, files, q) {
      OutsideEach(q, ds);
    }
  }

  /** The install over `stage`, after a failed finalize: artifact `k < m` is put back. */
  lemma InstallWithRollsBack(files: Files, stage: Step, resolve: ModArtifact -> Result<ArtifactPaths, Error>, sha: Bytes -> Bytes, faults: Faults, arts: seq<ModArtifact>, m: nat, k: nat)
    requires WellBehaved(stage, resolve, sha)
    requires AllStaged(stage, arts) && Separate(StagedPaths(stage, arts))
    requires FinalsMovable(faults, StagedPaths(stage, arts))
    requires FirstTmpRenameFault(faults, StagedPaths(stage, arts), m) && m < |arts|
    requires UndoUnobstructed(files, faults, StagedPaths(stage, arts))
    requires k < m
    ensures SameAt(InstallWith(files, stage, faults, arts).files, files, StagedPaths(stage, arts)[k].finalDest)
    ensures StagedPaths(stage, arts)[k].oldDest !in InstallWith(files, stage, faults, arts).files
    ensures StagedPaths(stage, arts)[k].tmpDest !in InstallWith(files, stage, faults, arts).files
  {
    var ds := StagedPaths(stage, arts);
    var f1 := StagedFiles(files, stage, arts);
    InstallWithCommits(files, stage, resolve, sha, faults, arts);
    forall j | 0 <= j < |ds| ensures ds[j].oldDest !in f1 {
      OwnPathNotStaged(files, stage, resolve, sha, arts, j, ds[j].oldDest);
    }
    CommitRollsBack(f1, faults, ds, m, k);
    OwnPathNotStaged(files, stage, resolve, sha, arts, k, ds[k].finalDest);
  }

  /** The install over `stage`, after a failed finalize: the failing artifact `m` is left half-moved. */
  lemma InstallWithStrands(files: Files, stage: Step, resolve: ModArtifact -> Result<ArtifactPaths, Error>, sha: Bytes -> Bytes, faults: Faults, arts: seq<ModArtifact>, m: nat)
    requires WellBehaved(stage, resolve, sha)
    requires AllStaged(stage, arts) && Separate(StagedPaths(stage, arts))
    requires FinalsMovable(faults, StagedPaths(stage, arts))
    requires FirstTmpRenameFault(faults, StagedPaths(stage, arts), m) && m < |arts|
    ensures StagedPaths(stage, arts)[m].finalDest !in InstallWith(files, stage, faults, arts).files
    ensures StagedPaths(stage, arts)[m].finalDest in files ==>
      && StagedPaths(stage, arts)[m].oldDest in InstallWith(files, stage, faults, arts).files
      && InstallWith(files, stage, faults, arts).files[StagedPaths(stage, arts)[m].oldDest] == files[StagedPaths(stage, arts)[m].finalDest]
    ensures Verified(InstallWith(files, stage, faults, arts).files, arts[m], StagedPaths(stage, arts)[m], sha)
  {
    var ds := StagedPaths(stage, arts);
    var f1 := StagedFiles(files, stage, arts);
    InstallWithCommits(files, stage, resolve, sha, faults, arts);
    CommitStrands(f1, faults, ds, m);
    OwnPathNotStaged(files, stage, resolve, sha, arts, m, ds[m].finalDest);
  }

  /** The install over `stage`, after a failed finalize: an artifact `k > m` is neither moved nor cleaned up. */
  lemma InstallWithKeepsRest(files: Files, stage: Step, resolve: ModArtifact -> Result<ArtifactPaths, Error>, sha: Bytes -> Bytes, faults: Faults, arts: seq<ModArtifact>, m: nat, k: nat)
    requires WellBehaved(stage, resolve, sha)
    requires AllStaged(stage, arts) && Separate(StagedPaths(stage, arts))
    requires FinalsMovable(faults, StagedPaths(stage, arts))
    requires FirstTmpRenameFault(faults, StagedPaths(stage, arts), m)
    requires m < k < |arts|
    ensures SameAt(InstallWith(files, stage, faults, arts).files, files, StagedPaths(stage, arts)[k].finalDest)
    ensures SameAt(InstallWith(files, stage, faults, arts).files, files, StagedPaths(stage, arts)[k].oldDest)
    ensures Verified(InstallWith(files, stage, faults, arts).files, arts[k], StagedPaths(stage, arts)[k], sha)
  {
    var ds := StagedPaths(stage, arts);
    var f1 := StagedFiles(files, stage, arts);
    InstallWithCommits(files, stage, resolve, sha, faults, arts);
    CommitKeepsRest(f1, faults, ds, m, k);
    assert ds[k].finalDest in Touch(ds[k]) && ds[k].oldDest in Touch(ds[k]) && ds[k].tmpDest in Touch(ds[k]);
    OwnPathNotStaged(files, stage, resolve, sha, arts, k, ds[k].oldDest);
    OwnPathNotStaged(files, stage, resolve, sha, arts, k, ds[k].finalDest);
  }

  // ---- The same results for `download_version` itself ----

  /**
   * When artifact `n` is the first that fails to download, the install fails
   * with that artifact's error, removes the `.new` file of every artifact
   * downloaded before it (unless the removal itself fails), and changes no
   * file but the `.new` files of artifacts 0 to `n`.
   */
  lemma DownloadFailureCancels(files: Files, env: Env, v: ModVersion, n: nat)
    requires n < |v.artifacts|
    requires forall k :: 0 <= k < n ==> Outcome(StageOf(env), v.artifacts[k]).Ok?
    requires Outcome(StageOf(env), v.artifacts[n]).Err?
    ensures DownloadVersionSpec(files, env, v).result == Err(Outcome(StageOf(env), v.artifacts[n]).error)
    ensures forall k :: 0 <= k < n && (RemoveOp, Outcome(StageOf(env), v.artifacts[k]).value.tmpDest) !in env.faults ==>
      Outcome(StageOf(env), v.artifacts[k]).value.tmpDest !in DownloadVersionSpec(files, env, v).files
    ensures forall q :: NotStaged(q, env.resolve, v.artifacts, 0, n + 1) ==> SameAt(DownloadVersionSpec(files, env, v).files, files, q)
  {
    StageOfEnv(env);
    InstallWithCancels(files, StageOf(env), env.resolve, env.sha, env.faults, v.artifacts, n);
  }

  /**
   * When every artifact downloads, their paths are separate and no rename is
   * obstructed, the install succeeds; every artifact's final place then holds
   * bytes whose digest matches the artifact's checksum, no `.new` file is
   * left, and no file outside the artifacts' paths has changed.
   */
  lemma InstallSucceeds(files: Files, env: Env, v: ModVersion)
    requires AllStaged(StageOf(env), v.artifacts) && Separate(StagedPaths(StageOf(env), v.artifacts))
    requires FinalsMovable(env.faults, StagedPaths(StageOf(env), v.artifacts))
    requires FirstTmpRenameFault(env.faults, StagedPaths(StageOf(env), v.artifacts), |v.artifacts|)
    ensures DownloadVersionSpec(files, env, v).result == Ok(())
    ensures forall k :: 0 <= k < |v.artifacts| ==>
      && StagedPaths(StageOf(env), v.artifacts)[k].finalDest in DownloadVersionSpec(files, env, v).files
      && ChecksumMatches(env.sha(DownloadVersionSpec(files, env, v).files[StagedPaths(StageOf(env), v.artifacts)[k].finalDest]), v.artifacts[k].sha256)
      && StagedPaths(StageOf(env), v.artifacts)[k].tmpDest !in DownloadVersionSpec(files, env, v).files
    ensures forall q :: OutsideRange(q, StagedPaths(StageOf(env), v.artifacts), 0, |v.artifacts|) ==>
      SameAt(DownloadVersionSpec(files, env, v).files, files, q)
  {
    StageOfEnv(env);
    InstallWithSucceeds(files, StageOf(env), env.resolve, env.sha, env.faults, v.artifacts);
  }

  /**
   * When every artifact downloads but artifact `m`'s `.new` file is the first
   * that cannot be moved into place, the install fails with that rename's
   * error, and no file outside the artifacts' paths has changed.
   */
  lemma FinalizeFailureResult(files: Files, env: Env, v: ModVersion, m: nat)
    requires AllStaged(StageOf(env), v.artifacts) && Separate(StagedPaths(StageOf(env), v.artifacts))
    requires FinalsMovable(env.faults, StagedPaths(StageOf(env), v.artifacts))
    requires FirstTmpRenameFault(env.faults, StagedPaths(StageOf(env), v.artifacts), m) && m < |v.artifacts|
    ensures DownloadVersionSpec(files, env, v).result == Err(Io(env.faults[(RenameOp, StagedPaths(StageOf(env), v.artifacts)[m].tmpDest)]))
    ensures forall q :: OutsideRange(q, StagedPaths(StageOf(env), v.artifacts), 0, |v.artifacts|) ==>
      SameAt(DownloadVersionSpec(files, env, v).files, files, q)
  {
    StageOfEnv(env);
    InstallWithFinalizeFails(files, StageOf(env), env.resolve, env.sha, env.faults, v.artifacts, m);
  }

  /**
   * After a failed finalize, every artifact moved into place before the failing
   * one is put back: its final place is as before the install, and neither a
   * `.new` nor an `.old` file is left, provided the undo is unobstructed.
   */
  lemma FinalizeFailureRollsBack(files: Files, env: Env, v: ModVersion, m: nat, k: nat)
    requires AllStaged(StageOf(env), v.artifacts) && Separate(StagedPaths(StageOf(env), v.artifacts))
    requires FinalsMovable(env.faults, StagedPaths(StageOf(env), v.artifacts))
    requires FirstTmpRenameFault(env.faults, StagedPaths(StageOf(env), v.artifacts), m) && m < |v.artifacts|
    requires UndoUnobstructed(files, env.faults, StagedPaths(StageOf(env), v.artifacts))
    requires k < m
    ensures SameAt(DownloadVersionSpec(files, env, v).files, files, StagedPaths(StageOf(env), v.artifacts)[k].finalDest)
    ensures StagedPaths(StageOf(env), v.artifacts)[k].oldDest !in DownloadVersionSpec(files, env, v).files
    ensures StagedPaths(StageOf(env), v.artifacts)[k].tmpDest !in DownloadVersionSpec(files, env, v).files
  {
    StageOfEnv(env);
    InstallWithRollsBack(files, StageOf(env), env.resolve, env.sha, env.faults, v.artifacts, m, k);
  }

  /**
   * After a failed finalize, the failing artifact is not put back: its final
   * place is empty, the file it replaced (if any) stays under its `.old` name,
   * and its verified `.new` file stays.
   */
  lemma FinalizeFailureStrands(files: Files, env: Env, v: ModVersion, m: nat)
    requires AllStaged(StageOf(env), v.artifacts) && Separate(StagedPaths(StageOf(env), v.artifacts))
    requires FinalsMovable(env.faults, StagedPaths(StageOf(env), v.artifacts))
    requires FirstTmpRenameFault(env.faults, StagedPaths(StageOf(env), v.artifacts), m) && m < |v.artifacts|
    ensures StagedPaths(StageOf(env), v.artifacts)[m].finalDest !in DownloadVersionSpec(files, env, v).files
    ensures StagedPaths(StageOf(env), v.artifacts)[m].finalDest in files ==>
      && StagedPaths(StageOf(env), v.artifacts)[m].oldDest in DownloadVersionSpec(files, env, v).files
      && DownloadVersionSpec(files, env, v).files[StagedPaths(StageOf(env), v.artifacts)[m].oldDest] == files[StagedPaths(StageOf(env), v.artifacts)[m].finalDest]
    ensures Verified(DownloadVersionSpec(files, env, v).files, v.artifacts[m], StagedPaths(StageOf(env), v.artifacts)[m], env.sha)
  {
    StageOfEnv(env);
    InstallWithStrands(files, StageOf(env), env.resolve, env.sha, env.faults, v.artifacts, m);
  }

  /**
   * After a failed finalize, the artifacts after the failing one are neither
   * moved nor cleaned up: their final and `.old` places are as before the
   * install, and their verified `.new` files stay.
   */
  lemma FinalizeFailureKeepsRest(files: Files, env: Env, v: ModVersion, m: nat, k: nat)
    requires AllStaged(StageOf(env), v.artifacts) && Separate(StagedPaths(StageOf(env), v.artifacts))
    requires FinalsMovable(env.faults, StagedPaths(StageOf(env), v.artifacts))
    requires FirstTmpRenameFault(env.faults, StagedPaths(StageOf(env), v.artifacts), m)
    requires m < k < |v.artifacts|
    ensures SameAt(DownloadVersionSpec(files, env, v).files, files, StagedPaths(StageOf(env), v.artifacts)[k].finalDest)
    ensures SameAt(DownloadVersionSpec(files, env, v).files, files, StagedPaths(StageOf(env), v.artifacts)[k].oldDest)
    ensures Verified(DownloadVersionSpec(files, env, v).files, v.artifacts[k], StagedPaths(StageOf(env), v.artifacts)[k], env.sha)
  {
    StageOfEnv(env);
    InstallWithKeepsRest(files, StageOf(env), env.resolve, env.sha, env.faults, v.artifacts, m, k);
  }
}
