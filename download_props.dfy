/**
 * What the install engine guarantees: the checksum gate of a single download,
 * the order and stopping rule of the download and finalize loops, that a failed
 * download leaves nothing but the failing artifact's partial file behind, that a
 * failed finalize puts back every artifact already moved into place, and that a
 * successful install leaves in every final place bytes whose digest matches the
 * artifact's checksum.
 *
 * The multi-artifact results assume the artifacts' paths are separate: no two
 * artifacts of a version share any of their final, `.new` or `.old` paths.
 */
module DownloadProperties {
  import opened Wrappers
  import opened StdPath
  import opened Mods
  import opened Errors
  import opened ManagerPaths
  import opened FileSystem
  import opened Hex
  import opened Download

  /** The three paths an artifact occupies. */
  function Touch(ps: ArtifactPaths): set<Path> {
    {ps.finalDest, ps.tmpDest, ps.oldDest}
  }

  predicate Distinct3(ps: ArtifactPaths) {
    ps.finalDest != ps.tmpDest && ps.finalDest != ps.oldDest && ps.tmpDest != ps.oldDest
  }

  /** Each artifact's paths are distinct, and no two artifacts share a path. */
  predicate Separate(ds: seq<ArtifactPaths>) {
    && (forall k :: 0 <= k < |ds| ==> Distinct3(ds[k]))
    && (forall a, b :: 0 <= a < b < |ds| ==> Touch(ds[a]) !! Touch(ds[b]))
  }

  // ---- One download ----

  /**
   * A connection failure or a non-2xx status is reported before any file is
   * created: the files are unchanged and no progress is reported.
   */
  lemma DownloadRejectsBeforeWriting(files: Files, faults: Faults, resp: HttpOutcome, dest: Path, checksum: string, url: string, sha: Bytes -> Bytes)
    requires resp.ConnectFailed? || !IsSuccess(resp.status)
    ensures var f := DownloadSpec(files, faults, resp, dest, checksum, url, sha);
      && f.files == files && f.progress == []
      && f.result == (if resp.ConnectFailed? then Err(Request(resp.detail)) else Err(Http(resp.status)))
  {
  }

  /**
   * A download succeeds exactly when the response is a complete 2xx stream that
   * could be written and whose digest, rendered in lower-case hex, equals the
   * expected checksum lower-cased. It then holds the streamed bytes at `dest`,
   * has changed nothing else, and reported each chunk's length against the
   * announced total (0 when none).
   */
  lemma DownloadOkIff(files: Files, faults: Faults, resp: HttpOutcome, dest: Path, checksum: string, url: string, sha: Bytes -> Bytes)
    ensures var f := DownloadSpec(files, faults, resp, dest, checksum, url, sha);
      f.result.Ok? <==>
        && resp.Response? && IsSuccess(resp.status) && (CreateOp, dest) !in faults
        && ((WriteOp, dest) !in faults || resp.chunks == []) && resp.streamError.None?
        && ChecksumMatches(sha(Concat(resp.chunks)), checksum)
    ensures var f := DownloadSpec(files, faults, resp, dest, checksum, url, sha);
      f.result.Ok? ==>
        && f.files == files[dest := Concat(resp.chunks)]
        && ChecksumMatches(sha(f.files[dest]), checksum)
        && f.progress == ProgressOf(resp.chunks, resp.contentLength.GetOr(0))
  {
  }

  /**
   * A checksum mismatch removes the downloaded file (unless removal fails) and
   * reports the calculated hash, the expected checksum exactly as given, and the URL.
   */
  lemma DownloadMismatchRemovesFile(files: Files, faults: Faults, resp: HttpOutcome, dest: Path, checksum: string, url: string, sha: Bytes -> Bytes)
    requires resp.Response? && IsSuccess(resp.status) && (CreateOp, dest) !in faults
    requires (WriteOp, dest) !in faults && resp.streamError.None?
    requires !ChecksumMatches(sha(Concat(resp.chunks)), checksum)
    ensures var f := DownloadSpec(files, faults, resp, dest, checksum, url, sha);
      && f.result == Err(Checksum(LowerHex(sha(Concat(resp.chunks))), checksum, url))
      && ((RemoveOp, dest) !in faults ==> dest !in f.files)
  {
  }

  /** A download touches no file but its destination. */
  lemma DownloadFrame(files: Files, faults: Faults, resp: HttpOutcome, dest: Path, checksum: string, url: string, sha: Bytes -> Bytes)
    ensures forall q :: q != dest ==> SameAt(DownloadSpec(files, faults, resp, dest, checksum, url, sha).files, files, q)
  {
  }

  /** A download's outcome and progress do not depend on the files already there. */
  lemma DownloadResultIndependent(f: Files, g: Files, faults: Faults, resp: HttpOutcome, dest: Path, checksum: string, url: string, sha: Bytes -> Bytes)
    ensures DownloadSpec(f, faults, resp, dest, checksum, url, sha).result == DownloadSpec(g, faults, resp, dest, checksum, url, sha).result
    ensures DownloadSpec(f, faults, resp, dest, checksum, url, sha).progress == DownloadSpec(g, faults, resp, dest, checksum, url, sha).progress
  {
  }

  // ---- One artifact ----

  /**
   * A final destination accepted by the corrected resolver always has a parent
   * directory, so under it the engine never takes the "no parent" branch; the
   * source's resolver does reach it (`AsWrittenNoParent`).
   */
  lemma TryNewHasParent(a: ModArtifact, base: Path)
    requires TryNew(a, base).Ok?
    ensures Parent(TryNew(a, base).value.finalDest).Some?
  {
  }

  /**
   * With the source's resolver, an artifact named ".." under base "/" resolves
   * to the root, and the download fails with the "no parent" path error before
   * any file is touched; the corrected resolver rejects it with its own path error.
   */
  lemma AsWrittenNoParent(files: Files, faults: Faults, respond: string -> HttpOutcome, sha: Bytes -> Bytes)
    ensures DownloadArtifactSpec(files, Env(faults, a => TryNewAsWritten(a, Path(true, [])), respond, sha), RootDotDotArtifact())
      == Staged(Err(PathError(NoParentMessage)), files, [])
    ensures DownloadArtifactSpec(files, Env(faults, a => TryNew(a, Path(true, [])), respond, sha), RootDotDotArtifact())
      == Staged(Err(PathError(NotUnderBaseMessage)), files, [])
  {
    RootFinalAsWritten();
  }

  /** The artifact's `.new` file is verified: present, with a digest matching the declared checksum. */
  predicate Verified(files: Files, a: ModArtifact, ps: ArtifactPaths, sha: Bytes -> Bytes) {
    ps.tmpDest in files && ChecksumMatches(sha(files[ps.tmpDest]), a.sha256)
  }

  /**
   * An artifact download fails without touching any file when its paths cannot
   * be resolved, its final path has no parent directory, or that directory
   * cannot be created (an existing one is fine);
   * otherwise it touches only the `.new` path, and a success returns the
   * resolved paths with the verified bytes in the `.new` file.
   */
  lemma DownloadArtifactEffect(files: Files, env: Env, a: ModArtifact)
    ensures var s := DownloadArtifactSpec(files, env, a);
      env.resolve(a).Err? ==> s == Staged(Err(env.resolve(a).error), files, [])
    ensures var s := DownloadArtifactSpec(files, env, a);
      env.resolve(a).Ok? ==>
        var ps := env.resolve(a).value;
        && (forall q :: q != ps.tmpDest ==> SameAt(s.files, files, q))
        && (Parent(ps.finalDest).None? ==> s == Staged(Err(PathError(NoParentMessage)), files, []))
        && (Parent(ps.finalDest).Some?
            && (CreateDirOp, Parent(ps.finalDest).value) in env.faults
            && env.faults[(CreateDirOp, Parent(ps.finalDest).value)] != AlreadyExists
            ==> s == Staged(Err(Io(env.faults[(CreateDirOp, Parent(ps.finalDest).value)])), files, []))
        && (s.result.Ok? ==> s.result.value == ps && Verified(s.files, a, ps, env.sha))
  {
    if env.resolve(a).Ok? {
      var ps := env.resolve(a).value;
      DownloadFrame(files, env.faults, env.respond(a.url.text), ps.tmpDest, a.sha256, a.url.text, env.sha);
      DownloadOkIff(files, env.faults, env.respond(a.url.text), ps.tmpDest, a.sha256, a.url.text, env.sha);
    }
  }

  /** An artifact download's outcome and progress do not depend on the files already there. */
  lemma DownloadArtifactResultIndependent(f: Files, g: Files, env: Env, a: ModArtifact)
    ensures DownloadArtifactSpec(f, env, a).result == DownloadArtifactSpec(g, env, a).result
    ensures DownloadArtifactSpec(f, env, a).progress == DownloadArtifactSpec(g, env, a).progress
  {
    if env.resolve(a).Ok? {
      var ps := env.resolve(a).value;
      DownloadResultIndependent(f, g, env.faults, env.respond(a.url.text), ps.tmpDest, a.sha256, a.url.text, env.sha);
    }
  }

  // ---- One finalize, one undo ----

  lemma FinalizeOneFrame(files: Files, faults: Faults, ps: ArtifactPaths)
    ensures forall q :: q !in Touch(ps) ==> SameAt(FinalizeOne(files, faults, ps).files, files, q)
  {
    StepFrames(files, faults, ps.finalDest, ps.oldDest);
    StepFrames(RenameStep(files, faults, ps.finalDest, ps.oldDest).files, faults, ps.tmpDest, ps.finalDest);
  }

  lemma FinalizeOneCongruent(f: Files, g: Files, faults: Faults, ps: ArtifactPaths)
    requires AgreeOn(f, g, Touch(ps))
    ensures FinalizeOne(f, faults, ps).result == FinalizeOne(g, faults, ps).result
    ensures AgreeOn(FinalizeOne(f, faults, ps).files, FinalizeOne(g, faults, ps).files, Touch(ps))
  {
    var s := Touch(ps);
    StepsCongruent(f, g, faults, ps.finalDest, ps.oldDest, s);
    var f1, g1 := RenameStep(f, faults, ps.finalDest, ps.oldDest).files, RenameStep(g, faults, ps.finalDest, ps.oldDest).files;
    StepsCongruent(f1, g1, faults, ps.tmpDest, ps.finalDest, s);
  }

  lemma UndoOneFrame(files: Files, faults: Faults, ps: ArtifactPaths)
    ensures forall q :: q !in Touch(ps) ==> SameAt(UndoOne(files, faults, ps), files, q)
  {
    StepFrames(files, faults, ps.finalDest, ps.finalDest);
    StepFrames(RemoveStep(files, faults, ps.finalDest).files, faults, ps.oldDest, ps.finalDest);
  }

  lemma UndoOneCongruent(f: Files, g: Files, faults: Faults, ps: ArtifactPaths)
    requires AgreeOn(f, g, Touch(ps))
    ensures AgreeOn(UndoOne(f, faults, ps), UndoOne(g, faults, ps), Touch(ps))
  {
    var s := Touch(ps);
    StepsCongruent(f, g, faults, ps.finalDest, ps.finalDest, s);
    var f1, g1 := RemoveStep(f, faults, ps.finalDest).files, RemoveStep(g, faults, ps.finalDest).files;
    StepsCongruent(f1, g1, faults, ps.oldDest, ps.finalDest, s);
  }

  /**
   * A successful finalize puts the `.new` bytes in the final place and removes
   * the `.new` file; a file that was in the final place is kept as `.old`.
   */
  lemma FinalizeOneSuccess(files: Files, faults: Faults, ps: ArtifactPaths)
    requires Distinct3(ps)
    requires FinalizeOne(files, faults, ps).result.Ok?
    ensures var r := FinalizeOne(files, faults, ps).files;
      && ps.tmpDest in files && ps.finalDest in r && r[ps.finalDest] == files[ps.tmpDest]
      && ps.tmpDest !in r
      && ((RenameOp, ps.finalDest) !in faults && ps.finalDest in files ==> ps.oldDest in r && r[ps.oldDest] == files[ps.finalDest])
      && ((RenameOp, ps.finalDest) !in faults && ps.finalDest !in files ==> SameAt(r, files, ps.oldDest))
  {
  }

  /**
   * Undoing a successful finalize restores the final place as it was before the
   * finalize and leaves neither a `.new` nor an `.old` file, provided no `.old`
   * file was there to begin with and the undo's own steps do not fail.
   */
  lemma UndoRestores(files: Files, faults: Faults, ps: ArtifactPaths)
    requires Distinct3(ps) && ps.oldDest !in files
    requires (RenameOp, ps.finalDest) !in faults && (RemoveOp, ps.finalDest) !in faults && (RenameOp, ps.oldDest) !in faults
    requires FinalizeOne(files, faults, ps).result.Ok?
    ensures var u := UndoOne(FinalizeOne(files, faults, ps).files, faults, ps);
      && SameAt(u, files, ps.finalDest)
      && ps.oldDest !in u && ps.tmpDest !in u
  {
    FinalizeOneSuccess(files, faults, ps);
  }

  /**
   * With the replaced file's rename unobstructed and the `.new` file present,
   * a finalize fails exactly when the `.new` file cannot be renamed.
   */
  lemma FinalizeOneOkIff(files: Files, faults: Faults, ps: ArtifactPaths)
    requires Distinct3(ps) && ps.tmpDest in files && (RenameOp, ps.finalDest) !in faults
    ensures FinalizeOne(files, faults, ps).result ==
      if (RenameOp, ps.tmpDest) in faults then Err(Io(faults[(RenameOp, ps.tmpDest)])) else Ok(())
  {
  }

  /**
   * A finalize whose second rename fails after the first one went through
   * leaves nothing in the final place, the replaced file (if any) under its
   * `.old` name, and the `.new` file where it was; `download_version` does not
   * undo this artifact.
   */
  lemma HalfFinalizeStrands(files: Files, faults: Faults, ps: ArtifactPaths)
    requires Distinct3(ps)
    requires (RenameOp, ps.finalDest) !in faults && (RenameOp, ps.tmpDest) in faults
    ensures var d := FinalizeOne(files, faults, ps);
      && d.result == Err(Io(faults[(RenameOp, ps.tmpDest)]))
      && ps.finalDest !in d.files
      && (ps.finalDest in files ==> ps.oldDest in d.files && d.files[ps.oldDest] == files[ps.finalDest])
      && (ps.finalDest !in files ==> SameAt(d.files, files, ps.oldDest))
      && SameAt(d.files, files, ps.tmpDest)
  {
  }

  // ---- The loops ----

  /** The `.new` path an artifact is staged at, when its paths resolve. */
  function StagedAt(resolve: ModArtifact -> Result<ArtifactPaths, Error>, a: ModArtifact): (r: Option<Path>)
    ensures r.Some? <==> resolve(a).Ok?
    ensures r.Some? ==> r.value == resolve(a).value.tmpDest
  {
    match resolve(a)
    case Ok(ps) => Some(ps.tmpDest)
    case Err(_) => None
  }

  /** `q` is not the `.new` path of any artifact with index in [lo, hi). */
  predicate NotStaged(q: Path, resolve: ModArtifact -> Result<ArtifactPaths, Error>, arts: seq<ModArtifact>, lo: nat, hi: nat) {
    forall k :: lo <= k < hi && k < |arts| ==> StagedAt(resolve, arts[k]) != Some(q)
  }

  /** No two resolvable artifacts share a `.new` path. */
  predicate TmpsDistinct(resolve: ModArtifact -> Result<ArtifactPaths, Error>, arts: seq<ModArtifact>) {
    forall a, b :: 0 <= a < b < |arts| && StagedAt(resolve, arts[a]).Some? ==> StagedAt(resolve, arts[a]) != StagedAt(resolve, arts[b])
  }

  // The loop lemmas hold for any per-artifact step with the following four
  // properties; `StageOfEnv` shows the artifact download has them.

  /** A successful step returns the artifact's resolved paths. */
  ghost predicate ReturnsPaths(stage: (Files, ModArtifact) -> Staged, resolve: ModArtifact -> Result<ArtifactPaths, Error>) {
    forall f, a :: stage(f, a).result.Ok? ==> resolve(a) == Ok(stage(f, a).result.value)
  }

  /** A step touches nothing but the artifact's `.new` path. */
  ghost predicate TouchesTmpOnly(stage: (Files, ModArtifact) -> Staged, resolve: ModArtifact -> Result<ArtifactPaths, Error>) {
    forall f, a, q :: StagedAt(resolve, a) != Some(q) ==> SameAt(stage(f, a).files, f, q)
  }

  /** A step's outcome and progress do not depend on the files already there. */
  ghost predicate FilesIndependent(stage: (Files, ModArtifact) -> Staged) {
    forall f, g, a :: stage(f, a).result == stage(g, a).result && stage(f, a).progress == stage(g, a).progress
  }

  /** A successful step leaves the artifact's `.new` file verified. */
  ghost predicate VerifiesTmp(stage: (Files, ModArtifact) -> Staged, sha: Bytes -> Bytes) {
    forall f, a :: stage(f, a).result.Ok? ==> Verified(stage(f, a).files, a, stage(f, a).result.value, sha)
  }

  /** The artifact download, as the download loop's step, has the four properties. */
  lemma StageOfEnv(env: Env)
    ensures ReturnsPaths(StageOf(env), env.resolve)
    ensures TouchesTmpOnly(StageOf(env), env.resolve)
    ensures FilesIndependent(StageOf(env))
    ensures VerifiesTmp(StageOf(env), env.sha)
  {
    var stage := StageOf(env);
    forall f, a ensures stage(f, a).result.Ok? ==> env.resolve(a) == Ok(stage(f, a).result.value) {
      DownloadArtifactEffect(f, env, a);
    }
    forall f, a, q | StagedAt(env.resolve, a) != Some(q) ensures SameAt(stage(f, a).files, f, q) {
      DownloadArtifactEffect(f, env, a);
    }
    forall f, g, a ensures stage(f, a).result == stage(g, a).result && stage(f, a).progress == stage(g, a).progress {
      DownloadArtifactResultIndependent(f, g, env, a);
    }
    forall f, a | stage(f, a).result.Ok? ensures Verified(stage(f, a).files, a, stage(f, a).result.value, env.sha) {
      DownloadArtifactEffect(f, env, a);
    }
  }

  /** The download loop downloads in declared order: each artifact downloaded has its resolved paths. */
  lemma {:induction false} DownloadFromShape(files: Files, stage: (Files, ModArtifact) -> Staged, resolve: ModArtifact -> Result<ArtifactPaths, Error>, arts: seq<ModArtifact>, i: nat, downloaded: seq<ArtifactPaths>, progress: seq<Progress>)
    requires i <= |arts| && |downloaded| == i && ReturnsPaths(stage, resolve)
    requires forall k :: 0 <= k < i ==> resolve(arts[k]) == Ok(downloaded[k])
    ensures var p := DownloadFrom(files, stage, arts, i, downloaded, progress);
      forall k :: 0 <= k < |p.downloaded| ==> resolve(arts[k]) == Ok(p.downloaded[k])
    decreases |arts| - i
  {
    if i < |arts| {
      var s := stage(files, arts[i]);
      if s.result.Ok? {
        DownloadFromShape(s.files, stage, resolve, arts, i + 1, downloaded + [s.result.value], progress + s.progress);
      }
    }
  }

  /**
   * Each artifact the download loop downloaded, and the one it stopped at, has
   * the outcome its own step would have on the files the loop started from.
   */
  lemma {:induction false} DownloadFromOutcomes(files: Files, stage: (Files, ModArtifact) -> Staged, arts: seq<ModArtifact>, i: nat, downloaded: seq<ArtifactPaths>, progress: seq<Progress>)
    requires i <= |arts| && |downloaded| == i && FilesIndependent(stage)
    ensures var p := DownloadFrom(files, stage, arts, i, downloaded, progress);
      && (forall k :: i <= k < |p.downloaded| ==> stage(files, arts[k]).result == Ok(p.downloaded[k]))
      && (p.error.Some? ==> stage(files, arts[|p.downloaded|]).result == Err(p.error.value))
    decreases |arts| - i
  {
    if i < |arts| {
      var s := stage(files, arts[i]);
      if s.result.Ok? {
        var ps := s.result.value;
        DownloadFromOutcomes(s.files, stage, arts, i + 1, downloaded + [ps], progress + s.progress);
        var p := DownloadFrom(s.files, stage, arts, i + 1, downloaded + [ps], progress + s.progress);
        assert p.downloaded[i] == p.downloaded[..i + 1][i];
      }
    }
  }

  /** The download loop touches no file but the `.new` paths of the artifacts it attempted. */
  lemma {:induction false} DownloadFromFrame(files: Files, stage: (Files, ModArtifact) -> Staged, resolve: ModArtifact -> Result<ArtifactPaths, Error>, arts: seq<ModArtifact>, i: nat, downloaded: seq<ArtifactPaths>, progress: seq<Progress>)
    requires i <= |arts| && |downloaded| == i && TouchesTmpOnly(stage, resolve)
    ensures var p := DownloadFrom(files, stage, arts, i, downloaded, progress);
      forall q :: NotStaged(q, resolve, arts, i, |p.downloaded| + 1) ==> SameAt(p.files, files, q)
    decreases |arts| - i
  {
    if i < |arts| {
      var s := stage(files, arts[i]);
      var p := DownloadFrom(files, stage, arts, i, downloaded, progress);
      if s.result.Ok? {
        DownloadFromFrame(s.files, stage, resolve, arts, i + 1, downloaded + [s.result.value], progress + s.progress);
        assert p == DownloadFrom(s.files, stage, arts, i + 1, downloaded + [s.result.value], progress + s.progress);
      }
      forall q | NotStaged(q, resolve, arts, i, |p.downloaded| + 1)
        ensures SameAt(p.files, files, q)
      {
        assert StagedAt(resolve, arts[i]) != Some(q);
        assert SameAt(s.files, files, q);
        if s.result.Ok? {
          assert NotStaged(q, resolve, arts, i + 1, |p.downloaded| + 1);
          assert SameAt(p.files, s.files, q);
        } else {
          assert p.files == s.files;
        }
      }
    }
  }

  /** With distinct `.new` paths, every artifact the download loop downloaded has its `.new` file verified. */
  lemma {:induction false} DownloadFromVerified(files: Files, stage: (Files, ModArtifact) -> Staged, resolve: ModArtifact -> Result<ArtifactPaths, Error>, sha: Bytes -> Bytes, arts: seq<ModArtifact>, i: nat, downloaded: seq<ArtifactPaths>, progress: seq<Progress>)
    requires i <= |arts| && |downloaded| == i && TmpsDistinct(resolve, arts)
    requires ReturnsPaths(stage, resolve) && TouchesTmpOnly(stage, resolve) && VerifiesTmp(stage, sha)
    ensures var p := DownloadFrom(files, stage, arts, i, downloaded, progress);
      forall k :: i <= k < |p.downloaded| ==> Verified(p.files, arts[k], p.downloaded[k], sha)
    decreases |arts| - i
  {
    if i < |arts| {
      var s := stage(files, arts[i]);
      if s.result.Ok? {
        var next := downloaded + [s.result.value];
        DownloadFromVerified(s.files, stage, resolve, sha, arts, i + 1, next, progress + s.progress);
        DownloadHeadVerified(files, stage, resolve, sha, arts, i, downloaded, progress);
      }
    }
  }

  /** The artifact staged in step `i` is still verified once the later steps have run. */
  lemma DownloadHeadVerified(files: Files, stage: (Files, ModArtifact) -> Staged, resolve: ModArtifact -> Result<ArtifactPaths, Error>, sha: Bytes -> Bytes, arts: seq<ModArtifact>, i: nat, downloaded: seq<ArtifactPaths>, progress: seq<Progress>)
    requires i < |arts| && |downloaded| == i && TmpsDistinct(resolve, arts)
    requires ReturnsPaths(stage, resolve) && TouchesTmpOnly(stage, resolve) && VerifiesTmp(stage, sha)
    requires stage(files, arts[i]).result.Ok?
    ensures var s := stage(files, arts[i]);
      var p := DownloadFrom(s.files, stage, arts, i + 1, downloaded + [s.result.value], progress + s.progress);
      i < |p.downloaded| && Verified(p.files, arts[i], p.downloaded[i], sha)
  {
    var s := stage(files, arts[i]);
    var ps := s.result.value;
    var next := downloaded + [ps];
    var p := DownloadFrom(s.files, stage, arts, i + 1, next, progress + s.progress);
    assert p.downloaded[i] == ps by {
      assert p.downloaded[..i + 1] == next;
    }
    assert Verified(s.files, arts[i], ps, sha);
    assert StagedAt(resolve, arts[i]) == Some(ps.tmpDest);
    assert NotStaged(ps.tmpDest, resolve, arts, i + 1, |p.downloaded| + 1) by {
      forall k | i + 1 <= k < |p.downloaded| + 1 && k < |arts|
        ensures StagedAt(resolve, arts[k]) != Some(ps.tmpDest)
      {
        assert StagedAt(resolve, arts[i]) != StagedAt(resolve, arts[k]);
      }
    }
    DownloadFromFrameAt(s.files, stage, resolve, arts, i + 1, next, progress + s.progress, ps.tmpDest);
  }

  /** The frame of the download loop at one path. */
  lemma DownloadFromFrameAt(files: Files, stage: (Files, ModArtifact) -> Staged, resolve: ModArtifact -> Result<ArtifactPaths, Error>, arts: seq<ModArtifact>, i: nat, downloaded: seq<ArtifactPaths>, progress: seq<Progress>, q: Path)
    requires i <= |arts| && |downloaded| == i && TouchesTmpOnly(stage, resolve)
    requires NotStaged(q, resolve, arts, i, |DownloadFrom(files, stage, arts, i, downloaded, progress).downloaded| + 1)
    ensures SameAt(DownloadFrom(files, stage, arts, i, downloaded, progress).files, files, q)
  {
    DownloadFromFrame(files, stage, resolve, arts, i, downloaded, progress);
  }

  /** `q` is none of the paths of the artifacts with index in [lo, hi). */
  predicate OutsideRange(q: Path, ds: seq<ArtifactPaths>, lo: nat, hi: nat) {
    forall k :: lo <= k < hi && k < |ds| ==> q !in Touch(ds[k])
  }

  predicate OutsideTmps(q: Path, ds: seq<ArtifactPaths>, i: nat) {
    forall k :: i <= k < |ds| ==> q != ds[k].tmpDest
  }

  predicate OutsideOlds(q: Path, ds: seq<ArtifactPaths>, i: nat) {
    forall k :: i <= k < |ds| ==> q != ds[k].oldDest
  }

  /** The cancel loop only removes files, and removes every `.new` file whose removal is not made to fail. */
  lemma {:induction false} CancelFromShape(files: Files, faults: Faults, ds: seq<ArtifactPaths>, i: nat)
    requires i <= |ds|
    ensures var r := CancelFrom(files, faults, ds, i);
      && (forall q :: q in r ==> q in files && r[q] == files[q])
      && (forall k :: i <= k < |ds| && (RemoveOp, ds[k].tmpDest) !in faults ==> ds[k].tmpDest !in r)
      && (forall q :: OutsideTmps(q, ds, i) ==> SameAt(r, files, q))
    decreases |ds| - i
  {
    if i < |ds| {
      var c := CancelOne(files, faults, ds[i]).files;
      CancelFromShape(c, faults, ds, i + 1);
      forall q | OutsideTmps(q, ds, i) ensures SameAt(CancelFrom(files, faults, ds, i), files, q) {
        assert OutsideTmps(q, ds, i + 1) && q != ds[i].tmpDest;
      }
    }
  }

  /** The finalize loop finalizes a prefix, in order, and stops at the first failure. */
  lemma {:induction false} FinalizeFromShape(files: Files, faults: Faults, ds: seq<ArtifactPaths>, i: nat, finalized: seq<ArtifactPaths>)
    requires i <= |ds| && |finalized| == i
    requires forall k :: 0 <= k < i ==> finalized[k] == ds[k]
    ensures var p := FinalizeFrom(files, faults, ds, i, finalized);
      && |p.finalized| <= |ds|
      && (forall k :: 0 <= k < |p.finalized| ==> p.finalized[k] == ds[k])
      && (p.error.None? <==> |p.finalized| == |ds|)
    decreases |ds| - i
  {
    if i < |ds| {
      var d := FinalizeOne(files, faults, ds[i]);
      if d.result.Ok? {
        FinalizeFromShape(d.files, faults, ds, i + 1, finalized + [ds[i]]);
      }
    }
  }

  /** The finalize loop touches nothing but the paths of the artifacts it attempted. */
  lemma {:induction false} FinalizeFromFrame(files: Files, faults: Faults, ds: seq<ArtifactPaths>, i: nat, finalized: seq<ArtifactPaths>)
    requires i <= |ds| && |finalized| == i
    ensures forall q :: OutsideRange(q, ds, i, |FinalizeFrom(files, faults, ds, i, finalized).finalized| + 1) ==>
      SameAt(FinalizeFrom(files, faults, ds, i, finalized).files, files, q)
    decreases |ds| - i
  {
    if i < |ds| {
      var d := FinalizeOne(files, faults, ds[i]);
      var p := FinalizeFrom(files, faults, ds, i, finalized);
      FinalizeOneFrame(files, faults, ds[i]);
      if d.result.Ok? {
        FinalizeFromFrame(d.files, faults, ds, i + 1, finalized + [ds[i]]);
        assert p == FinalizeFrom(d.files, faults, ds, i + 1, finalized + [ds[i]]);
      }
      forall q | OutsideRange(q, ds, i, |p.finalized| + 1) ensures SameAt(p.files, files, q) {
        assert q !in Touch(ds[i]);
        assert SameAt(d.files, files, q);
        if d.result.Ok? {
          assert OutsideRange(q, ds, i + 1, |p.finalized| + 1);
          assert SameAt(p.files, d.files, q);
        } else {
          assert p.files == d.files;
        }
      }
    }
  }

  /**
   * At every artifact the finalize loop finalized, the files there are what
   * finalizing that artifact alone would leave.
   */
  lemma {:induction false} FinalizeFromAt(files: Files, faults: Faults, ds: seq<ArtifactPaths>, i: nat, finalized: seq<ArtifactPaths>, k: nat)
    requires i <= |ds| && |finalized| == i && Separate(ds)
    requires i <= k < |FinalizeFrom(files, faults, ds, i, finalized).finalized|
    ensures FinalizeOne(files, faults, ds[k]).result.Ok?
    ensures AgreeOn(FinalizeFrom(files, faults, ds, i, finalized).files, FinalizeOne(files, faults, ds[k]).files, Touch(ds[k]))
    decreases |ds| - i
  {
    var d := FinalizeOne(files, faults, ds[i]);
    assert d.result.Ok?;
    var p := FinalizeFrom(d.files, faults, ds, i + 1, finalized + [ds[i]]);
    assert FinalizeFrom(files, faults, ds, i, finalized) == p;
    if k == i {
      FinalizeFromFrame(d.files, faults, ds, i + 1, finalized + [ds[i]]);
      forall q | q in Touch(ds[i])
        ensures SameAt(p.files, d.files, q)
      {
        forall j | i + 1 <= j < |ds| ensures q !in Touch(ds[j]) {
          assert Touch(ds[i]) !! Touch(ds[j]);
        }
        assert OutsideRange(q, ds, i + 1, |p.finalized| + 1);
      }
    } else {
      FinalizeFromAt(d.files, faults, ds, i + 1, finalized + [ds[i]], k);
      FinalizeOneFrame(files, faults, ds[i]);
      assert Touch(ds[i]) !! Touch(ds[k]);
      FinalizeOneCongruent(d.files, files, faults, ds[k]);
    }
  }

  /**
   * At the artifact the finalize loop stopped at, the error is that
   * artifact's own, and the files there are what finalizing it alone would leave.
   */
  lemma {:induction false} FinalizeFromFailed(files: Files, faults: Faults, ds: seq<ArtifactPaths>, i: nat, finalized: seq<ArtifactPaths>)
    requires i <= |ds| && |finalized| == i && Separate(ds)
    requires FinalizeFrom(files, faults, ds, i, finalized).error.Some?
    ensures var m := |FinalizeFrom(files, faults, ds, i, finalized).finalized|;
      && m < |ds|
      && FinalizeOne(files, faults, ds[m]).result == Err(FinalizeFrom(files, faults, ds, i, finalized).error.value)
      && AgreeOn(FinalizeFrom(files, faults, ds, i, finalized).files, FinalizeOne(files, faults, ds[m]).files, Touch(ds[m]))
    decreases |ds| - i
  {
    var d := FinalizeOne(files, faults, ds[i]);
    if d.result.Ok? {
      FinalizeFromFailed(d.files, faults, ds, i + 1, finalized + [ds[i]]);
      var p := FinalizeFrom(d.files, faults, ds, i + 1, finalized + [ds[i]]);
      var m := |p.finalized|;
      assert FinalizeFrom(files, faults, ds, i, finalized) == p;
      FinalizeOneAway(files, faults, ds, i, m);
      FinalizeOneCongruent(d.files, files, faults, ds[m]);
      AgreeOnTrans(p.files, FinalizeOne(d.files, faults, ds[m]).files, FinalizeOne(files, faults, ds[m]).files, Touch(ds[m]));
    }
  }

  /** Finalizing one artifact leaves the paths of every other artifact of a separate list alone. */
  lemma FinalizeOneAway(files: Files, faults: Faults, ds: seq<ArtifactPaths>, i: nat, m: nat)
    requires i < m < |ds| && Separate(ds)
    ensures AgreeOn(FinalizeOne(files, faults, ds[i]).files, files, Touch(ds[m]))
  {
    FinalizeOneFrame(files, faults, ds[i]);
    assert Touch(ds[i]) !! Touch(ds[m]);
  }

  /** The undo loop touches nothing outside the paths of the artifacts from `i` on. */
  lemma {:induction false} UndoFromFrame(files: Files, faults: Faults, fin: seq<ArtifactPaths>, i: nat)
    requires i <= |fin|
    ensures forall q :: OutsideRange(q, fin, i, |fin|) ==> SameAt(UndoFrom(files, faults, fin, i), files, q)
    decreases |fin| - i
  {
    if i < |fin| {
      UndoOneFrame(files, faults, fin[i]);
      UndoFromFrame(UndoOne(files, faults, fin[i]), faults, fin, i + 1);
      forall q | OutsideRange(q, fin, i, |fin|) ensures SameAt(UndoFrom(files, faults, fin, i), files, q) {
        assert OutsideRange(q, fin, i + 1, |fin|) && q !in Touch(fin[i]);
      }
    }
  }

  /** At every artifact of the undo loop, the files there are what undoing that artifact alone would leave. */
  lemma {:induction false} UndoFromAt(files: Files, faults: Faults, fin: seq<ArtifactPaths>, i: nat)
    requires i <= |fin| && Separate(fin)
    ensures forall k :: i <= k < |fin| ==> AgreeOn(UndoFrom(files, faults, fin, i), UndoOne(files, faults, fin[k]), Touch(fin[k]))
    decreases |fin| - i
  {
    if i < |fin| {
      var u := UndoOne(files, faults, fin[i]);
      UndoOneFrame(files, faults, fin[i]);
      UndoFromAt(u, faults, fin, i + 1);
      UndoFromFrame(u, faults, fin, i + 1);
      var r := UndoFrom(u, faults, fin, i + 1);
      forall q | q in Touch(fin[i])
        ensures SameAt(r, u, q)
      {
        forall k | i + 1 <= k < |fin| ensures q !in Touch(fin[k]) {
          assert Touch(fin[i]) !! Touch(fin[k]);
        }
        assert OutsideRange(q, fin, i + 1, |fin|);
      }
      forall k | i + 1 <= k < |fin|
        ensures AgreeOn(UndoOne(u, faults, fin[k]), UndoOne(files, faults, fin[k]), Touch(fin[k]))
      {
        assert Touch(fin[i]) !! Touch(fin[k]);
        UndoOneCongruent(u, files, faults, fin[k]);
      }
    }
  }

  /** The cleanup loop only removes `.old` files. */
  lemma {:induction false} DeleteOldsFromShape(files: Files, faults: Faults, fin: seq<ArtifactPaths>, i: nat)
    requires i <= |fin|
    ensures var d := DeleteOldsFrom(files, faults, fin, i);
      && (forall q :: q in d.files ==> q in files && d.files[q] == files[q])
      && (forall q :: OutsideOlds(q, fin, i) ==> SameAt(d.files, files, q))
    decreases |fin| - i
  {
    if i < |fin| {
      var step := RemoveStep(files, faults, fin[i].oldDest);
      if step.result.IoOk? {
        DeleteOldsFromShape(step.files, faults, fin, i + 1);
        forall q | OutsideOlds(q, fin, i) ensures SameAt(DeleteOldsFrom(files, faults, fin, i).files, files, q) {
          assert OutsideOlds(q, fin, i + 1) && q != fin[i].oldDest;
        }
      }
    }
  }

  /**
   * Cleanup stops at the first `.old` file it cannot remove, and a missing one
   * counts: when the first artifact replaced nothing, no `.old` file is removed.
   */
  lemma CleanupStopsAtFirstMissingOld(files: Files, faults: Faults, fin: seq<ArtifactPaths>)
    requires |fin| > 0 && fin[0].oldDest !in files && (RemoveOp, fin[0].oldDest) !in faults
    ensures DeleteOldsFrom(files, faults, fin, 0) == Done(Err(Io(NotFound)), files)
  {
  }

  // ---- The corrected resolver against the source's ----

  /**
   * An artifact on which the correction makes no difference: an ordinary
   * filename (a single component, not "", "." or "..") whose final destination, as the source
   * computes it, is not the base itself.
   */
  predicate Ordinary(a: ModArtifact, base: Path) {
    && ArtifactFileName(a).Ok?
    && IsPart(ArtifactFileName(a).value) && ArtifactFileName(a).value != ".."
    && !(TryNewAsWritten(a, base).Ok? && TryNewAsWritten(a, base).value.finalDest == base)
  }

  /** Two environments that resolve the remaining artifacts alike run the download loop alike. */
  lemma {:induction false} DownloadFromSameResolution(files: Files, e1: Env, e2: Env, arts: seq<ModArtifact>, i: nat, downloaded: seq<ArtifactPaths>, progress: seq<Progress>)
    requires i <= |arts|
    requires e2 == e1.(resolve := e2.resolve)
    requires forall k :: i <= k < |arts| ==> e1.resolve(arts[k]) == e2.resolve(arts[k])
    ensures DownloadFrom(files, StageOf(e1), arts, i, downloaded, progress) == DownloadFrom(files, StageOf(e2), arts, i, downloaded, progress)
    decreases |arts| - i
  {
    if i < |arts| {
      var s := DownloadArtifactSpec(files, e1, arts[i]);
      assert DownloadArtifactSpec(files, e2, arts[i]) == s;
      if s.result.Ok? {
        DownloadFromSameResolution(s.files, e1, e2, arts, i + 1, downloaded + [s.result.value], progress + s.progress);
      }
    }
  }

  /**
   * Under a rooted base, on a version whose artifacts are all ordinary, the
   * engine running the corrected resolver gives the result, files and progress
   * that the engine running the source's resolver gives.
   */
  lemma EngineAgreesOnOrdinaryArtifacts(files: Files, faults: Faults, respond: string -> HttpOutcome, sha: Bytes -> Bytes, base: Path, v: ModVersion)
    requires base.rooted
    requires forall k :: 0 <= k < |v.artifacts| ==> Ordinary(v.artifacts[k], base)
    ensures DownloadVersionSpec(files, Env(faults, a => TryNew(a, base), respond, sha), v)
      == DownloadVersionSpec(files, Env(faults, a => TryNewAsWritten(a, base), respond, sha), v)
  {
    var e1 := Env(faults, a => TryNew(a, base), respond, sha);
    var e2 := Env(faults, a => TryNewAsWritten(a, base), respond, sha);
    forall k | 0 <= k < |v.artifacts| ensures e1.resolve(v.artifacts[k]) == e2.resolve(v.artifacts[k]) {
      ResolversAgreeUnlessBase(v.artifacts[k], base);
    }
    DownloadFromSameResolution(files, e1, e2, v.artifacts, 0, [], []);
  }
}
