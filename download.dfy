/**
 * The install engine of `Downloader`: every artifact of a version is downloaded
 * to its `.new` path, then each one is moved into place (the file it replaces
 * kept as `.old`), then the `.old` files are removed. A download failure cancels
 * the downloads made so far; a finalize failure undoes the artifacts moved into
 * place so far. The HTTP client is a function from URL text to the response it
 * delivers; SHA-256 is a function parameter.
 *
 * Each step is a pure function over the file map (the specification) and a
 * method of `Downloader` that performs it on a `FileSystem` and is proved equal
 * to it. The loops' specifications carry the loop state as accumulators, so a
 * loop's invariant is that finishing the specification from the current state
 * gives the whole result.
 */
module Download {
  import opened Seqs
  import opened Wrappers
  import opened StdPath
  import opened Mods
  import opened Errors
  import opened ManagerPaths
  import opened FileSystem
  import opened Hex

  /** What the HTTP client yields for a request. */
  datatype HttpOutcome =
    | ConnectFailed(detail: string)
    | Response(status: nat, contentLength: Option<nat>, chunks: seq<Bytes>, streamError: Option<string>)

  /** One progress report: the chunk's length and the announced total (0 when unknown). */
  datatype Progress = Progress(chunkLen: nat, total: nat)

  /**
   * Everything a run depends on besides the files: injected faults, how an
   * artifact's paths are resolved (the path resolver under the engine's base
   * directory), the network, the hash.
   */
  datatype Env = Env(faults: Faults, resolve: ModArtifact -> Result<ArtifactPaths, Error>, respond: string -> HttpOutcome, sha: Bytes -> Bytes)

  /** A download's outcome, the files afterwards and the progress reported. */
  datatype Fetched = Fetched(result: Result<(), Error>, files: Files, progress: seq<Progress>)

  /** An artifact's download outcome: its paths on success. */
  datatype Staged = Staged(result: Result<ArtifactPaths, Error>, files: Files, progress: seq<Progress>)

  /** A single file step's outcome. */
  datatype Done = Done(result: Result<(), Error>, files: Files)

  /** The download phase: the artifacts downloaded so far, the error that stopped it, if any. */
  datatype Phase1 = Phase1(downloaded: seq<ArtifactPaths>, error: Option<Error>, files: Files, progress: seq<Progress>)

  /** The finalize phase: the artifacts moved into place so far, the error that stopped it, if any. */
  datatype Phase2 = Phase2(finalized: seq<ArtifactPaths>, error: Option<Error>, files: Files)

  /** `StatusCode::is_success`. */
  predicate IsSuccess(status: nat) {
    200 <= status < 300
  }

  /** The bytes of the chunks in order. */
  function Concat(chunks: seq<Bytes>): Bytes {
    if chunks == [] then [] else Concat(chunks[..|chunks| - 1]) + chunks[|chunks| - 1]
  }

  /** One report per chunk. */
  function ProgressOf(chunks: seq<Bytes>, total: nat): (r: seq<Progress>)
    ensures |r| == |chunks|
    ensures forall k :: 0 <= k < |chunks| ==> r[k] == Progress(|chunks[k]|, total)
  {
    seq(|chunks|, k requires 0 <= k < |chunks| => Progress(|chunks[k]|, total))
  }

  /** Taking one more chunk appends its bytes and its report. */
  lemma ChunkStep(chunks: seq<Bytes>, i: nat, total: nat)
    requires i < |chunks|
    ensures Concat(chunks[..i + 1]) == Concat(chunks[..i]) + chunks[i]
    ensures ProgressOf(chunks[..i + 1], total) == ProgressOf(chunks[..i], total) + [Progress(|chunks[i]|, total)]
  {
    assert chunks[..i + 1][..i] == chunks[..i];
  }

  function IoDone(step: IoStep): Done {
    Done(if step.result.IoOk? then Ok(()) else Err(Io(step.result.kind)), step.files)
  }

  // ---- Specification of each step ----

  /**
   * `Downloader::download`: request, check the status, create the file, write
   * the chunks while hashing and reporting them, then compare the digest with
   * the expected checksum, removing the file on a mismatch.
   */
  function DownloadSpec(files: Files, faults: Faults, resp: HttpOutcome, dest: Path, checksum: string, url: string, sha: Bytes -> Bytes): Fetched {
    match resp
    case ConnectFailed(d) => Fetched(Err(Request(d)), files, [])
    case Response(status, length, chunks, streamError) =>
      if !IsSuccess(status) then Fetched(Err(Http(status)), files, [])
      else if (CreateOp, dest) in faults then Fetched(Err(Io(faults[(CreateOp, dest)])), files, [])
      else if (WriteOp, dest) in faults && |chunks| > 0 then
        Fetched(Err(Io(faults[(WriteOp, dest)])), files[dest := []], [])
      else
        var written := files[dest := Concat(chunks)];
        var progress := ProgressOf(chunks, length.GetOr(0));
        if streamError.Some? then Fetched(Err(Request(streamError.value)), written, progress)
        else
          var actual := LowerHex(sha(Concat(chunks)));
          if actual != ToLowerAscii(checksum) then
            Fetched(Err(Checksum(actual, checksum, url)), RemoveStep(written, faults, dest).files, progress)
          else Fetched(Ok(()), written, progress)
  }

  const NoParentMessage: string := "unable to get parent of artifact's final destination"

  /**
   * `Downloader::download_artifact`: resolve the paths, create the final path's
   * directory (a final path without a parent is a path error), download to the
   * `.new` path.
   */
  function DownloadArtifactSpec(files: Files, env: Env, a: ModArtifact): Staged {
    match env.resolve(a)
    case Err(e) => Staged(Err(e), files, [])
    case Ok(ps) =>
      match Parent(ps.finalDest)
      case None => Staged(Err(PathError(NoParentMessage)), files, [])
      case Some(dir) =>
        var io := CreateDirStep(env.faults, dir);
        if io.IoErr? && io.kind != AlreadyExists then Staged(Err(Io(io.kind)), files, [])
        else
          var f := DownloadSpec(files, env.faults, env.respond(a.url.text), ps.tmpDest, a.sha256, a.url.text, env.sha);
          Staged(if f.result.Ok? then Ok(ps) else Err(f.result.error), f.files, f.progress)
  }

  /** `Downloader::finalize_artifact`: keep the replaced file as `.old` (a missing one is fine), then move `.new` into place. */
  function FinalizeOne(files: Files, faults: Faults, ps: ArtifactPaths): Done {
    var first := RenameStep(files, faults, ps.finalDest, ps.oldDest);
    if first.result.IoErr? && first.result.kind != NotFound then Done(Err(Io(first.result.kind)), first.files)
    else IoDone(RenameStep(first.files, faults, ps.tmpDest, ps.finalDest))
  }

  /** `Downloader::cancel_artifact`: remove the `.new` file. */
  function CancelOne(files: Files, faults: Faults, ps: ArtifactPaths): Done {
    IoDone(RemoveStep(files, faults, ps.tmpDest))
  }

  /** `Downloader::return_old_artifact`: move the `.old` file back into place. */
  function ReturnOldOne(files: Files, faults: Faults, ps: ArtifactPaths): Done {
    IoDone(RenameStep(files, faults, ps.oldDest, ps.finalDest))
  }

  /** `Downloader::delete_artifact`: remove the file in its final place. */
  function DeleteFinalOne(files: Files, faults: Faults, ps: ArtifactPaths): Done {
    IoDone(RemoveStep(files, faults, ps.finalDest))
  }

  /** Undoing one finalized artifact: delete it, then return the old file; both errors are ignored. */
  function UndoOne(files: Files, faults: Faults, ps: ArtifactPaths): Files {
    ReturnOldOne(DeleteFinalOne(files, faults, ps).files, faults, ps).files
  }

  // ---- Specification of the loops, from loop state `i` with its accumulators ----

  /** The per-artifact step of the download loop. */
  function StageOf(env: Env): (Files, ModArtifact) -> Staged {
    (f, a) => DownloadArtifactSpec(f, env, a)
  }

  /** The download loop over the per-artifact step `stage`: in order, stopping at the first failure. */
  function DownloadFrom(files: Files, stage: (Files, ModArtifact) -> Staged, arts: seq<ModArtifact>, i: nat, downloaded: seq<ArtifactPaths>, progress: seq<Progress>): (r: Phase1)
    requires i <= |arts|
    ensures |downloaded| <= |r.downloaded| <= |downloaded| + (|arts| - i)
    ensures r.downloaded[..|downloaded|] == downloaded
    ensures r.error.None? <==> |r.downloaded| == |downloaded| + (|arts| - i)
    decreases |arts| - i
  {
    if i == |arts| then Phase1(downloaded, None, files, progress)
    else
      var s := stage(files, arts[i]);
      match s.result
      case Err(e) => Phase1(downloaded, Some(e), s.files, progress + s.progress)
      case Ok(ps) => DownloadFrom(s.files, stage, arts, i + 1, downloaded + [ps], progress + s.progress)
  }

  /** The cancel loop: every downloaded artifact's `.new` file is removed, errors ignored. */
  function CancelFrom(files: Files, faults: Faults, ds: seq<ArtifactPaths>, i: nat): Files
    requires i <= |ds|
    decreases |ds| - i
  {
    if i == |ds| then files else CancelFrom(CancelOne(files, faults, ds[i]).files, faults, ds, i + 1)
  }

  /** The finalize loop: in order, stopping at the first failure. */
  function FinalizeFrom(files: Files, faults: Faults, ds: seq<ArtifactPaths>, i: nat, finalized: seq<ArtifactPaths>): (r: Phase2)
    requires i <= |ds|
    ensures |finalized| <= |r.finalized| <= |finalized| + (|ds| - i)
    ensures r.finalized[..|finalized|] == finalized
    ensures r.error.None? <==> |r.finalized| == |finalized| + (|ds| - i)
    decreases |ds| - i
  {
    if i == |ds| then Phase2(finalized, None, files)
    else
      var d := FinalizeOne(files, faults, ds[i]);
      if d.result.Err? then Phase2(finalized, Some(d.result.error), d.files)
      else
        var r := FinalizeFrom(d.files, faults, ds, i + 1, finalized + [ds[i]]);
        PrefixOfExtension(r.finalized, finalized, ds[i]);
        r
  }

  /** The undo loop: every finalized artifact is deleted and its old file returned, errors ignored. */
  function UndoFrom(files: Files, faults: Faults, fin: seq<ArtifactPaths>, i: nat): Files
    requires i <= |fin|
    decreases |fin| - i
  {
    if i == |fin| then files else UndoFrom(UndoOne(files, faults, fin[i]), faults, fin, i + 1)
  }

  /** `Downloader::delete_old_artifacts`: remove the `.old` files in order, stopping at the first failure. */
  function DeleteOldsFrom(files: Files, faults: Faults, fin: seq<ArtifactPaths>, i: nat): Done
    requires i <= |fin|
    decreases |fin| - i
  {
    if i == |fin| then Done(Ok(()), files)
    else
      var step := RemoveStep(files, faults, fin[i].oldDest);
      if step.result.IoErr? then Done(Err(Io(step.result.kind)), step.files)
      else DeleteOldsFrom(step.files, faults, fin, i + 1)
  }

  /** `Downloader::download_version`: download all, else cancel; finalize all, else undo; then clean up. */
  function DownloadVersionSpec(files: Files, env: Env, v: ModVersion): Fetched {
    InstallWith(files, StageOf(env), env.faults, v.artifacts)
  }

  /** The install over the per-artifact step `stage`. */
  function InstallWith(files: Files, stage: (Files, ModArtifact) -> Staged, faults: Faults, arts: seq<ModArtifact>): Fetched {
    var p1 := DownloadFrom(files, stage, arts, 0, [], []);
    if p1.error.Some? then Fetched(Err(p1.error.value), CancelFrom(p1.files, faults, p1.downloaded, 0), p1.progress)
    else
      var c := CommitSpec(p1.files, faults, p1.downloaded);
      Fetched(c.result, c.files, p1.progress)
  }

  /** The second half of `download_version`: finalize all, else undo those finalized; then remove the `.old` files. */
  function CommitSpec(files: Files, faults: Faults, ds: seq<ArtifactPaths>): Done {
    var p2 := FinalizeFrom(files, faults, ds, 0, []);
    if p2.error.Some? then Done(Err(p2.error.value), UndoFrom(p2.files, faults, p2.finalized, 0))
    else Done(Ok(()), DeleteOldsFrom(p2.files, faults, p2.finalized, 0).files)
  }

  // ---- The engine ----

  /** `Downloader`: the base directory artifacts are installed under, and the HTTP client. */
  class Downloader {
    var baseDest: Path
    const client: string -> HttpOutcome

    constructor(base: Path, httpClient: string -> HttpOutcome)
      ensures baseDest == base && client == httpClient
    {
      baseDest := base;
      client := httpClient;
    }

    function EnvOf(fs: FileSystem, sha: Bytes -> Bytes): Env
      reads this
    {
      var base := baseDest;
      Env(fs.faults, a => TryNew(a, base), client, sha)
    }

    method DownloadVersion(fs: FileSystem, v: ModVersion, sha: Bytes -> Bytes) returns (r: Result<(), Error>, progress: seq<Progress>)
      modifies fs
      ensures Fetched(r, fs.files, progress) == DownloadVersionSpec(old(fs.files), EnvOf(fs, sha), v)
    {
      var downloaded, installError;
      downloaded, installError, progress := DownloadAll(fs, v.artifacts, sha);
      if installError.Some? {
        CancelAll(fs, downloaded);
        return Err(installError.value), progress;
      }
      var finalized;
      finalized, installError := FinalizeAll(fs, downloaded);
      if installError.Some? {
        UndoAll(fs, finalized);
        return Err(installError.value), progress;
      }
      var ignored := DeleteOldArtifacts(fs, finalized);
      r := Ok(());
    }

    /** The first loop of `download_version`: download each artifact, stopping at the first failure. */
    method DownloadAll(fs: FileSystem, arts: seq<ModArtifact>, sha: Bytes -> Bytes) returns (downloaded: seq<ArtifactPaths>, installError: Option<Error>, progress: seq<Progress>)
      modifies fs
      ensures Phase1(downloaded, installError, fs.files, progress) == DownloadFrom(old(fs.files), StageOf(EnvOf(fs, sha)), arts, 0, [], [])
    {
      var env := EnvOf(fs, sha);
      ghost var p1 := DownloadFrom(fs.files, StageOf(env), arts, 0, [], []);
      installError := None;
      downloaded := [];
      progress := [];
      var i := 0;
      while i < |arts|
        invariant i <= |arts| && env == EnvOf(fs, sha)
        invariant DownloadFrom(fs.files, StageOf(env), arts, i, downloaded, progress) == p1
      {
        var res, events := DownloadArtifact(fs, arts[i], sha);
        progress := progress + events;
        if res.Err? {
          installError := Some(res.error);
          break;
        }
        downloaded := downloaded + [res.value];
        i := i + 1;
      }
    }

    /** The cancel loop of `download_version`: remove every downloaded `.new` file, ignoring errors. */
    method CancelAll(fs: FileSystem, downloaded: seq<ArtifactPaths>)
      modifies fs
      ensures fs.files == CancelFrom(old(fs.files), fs.faults, downloaded, 0)
    {
      ghost var cancelled := CancelFrom(fs.files, fs.faults, downloaded, 0);
      var j := 0;
      while j < |downloaded|
        invariant j <= |downloaded|
        invariant CancelFrom(fs.files, fs.faults, downloaded, j) == cancelled
      {
        var ignored := CancelArtifact(fs, downloaded[j]);
        j := j + 1;
      }
    }

    /** The second loop of `download_version`: finalize each artifact, stopping at the first failure. */
    method FinalizeAll(fs: FileSystem, downloaded: seq<ArtifactPaths>) returns (finalized: seq<ArtifactPaths>, installError: Option<Error>)
      modifies fs
      ensures Phase2(finalized, installError, fs.files) == FinalizeFrom(old(fs.files), fs.faults, downloaded, 0, [])
    {
      ghost var p2 := FinalizeFrom(fs.files, fs.faults, downloaded, 0, []);
      installError := None;
      finalized := [];
      var i := 0;
      while i < |downloaded|
        invariant i <= |downloaded|
        invariant FinalizeFrom(fs.files, fs.faults, downloaded, i, finalized) == p2
      {
        var res := FinalizeArtifact(fs, downloaded[i]);
        if res.Err? {
          installError := Some(res.error);
          break;
        }
        finalized := finalized + [downloaded[i]];
        i := i + 1;
      }
    }

    /** The undo loop of `download_version`: delete each finalized artifact and return its old file, ignoring errors. */
    method UndoAll(fs: FileSystem, finalized: seq<ArtifactPaths>)
      modifies fs
      ensures fs.files == UndoFrom(old(fs.files), fs.faults, finalized, 0)
    {
      ghost var undone := UndoFrom(fs.files, fs.faults, finalized, 0);
      var j := 0;
      while j < |finalized|
        invariant j <= |finalized|
        invariant UndoFrom(fs.files, fs.faults, finalized, j) == undone
      {
        var ignoredDelete := DeleteArtifact(fs, finalized[j]);
        var ignoredReturn := ReturnOldArtifact(fs, finalized[j]);
        j := j + 1;
      }
    }

    method DownloadArtifact(fs: FileSystem, a: ModArtifact, sha: Bytes -> Bytes) returns (r: Result<ArtifactPaths, Error>, progress: seq<Progress>)
      modifies fs
      ensures Staged(r, fs.files, progress) == DownloadArtifactSpec(old(fs.files), EnvOf(fs, sha), a)
    {
      var paths := TryNew(a, baseDest);
      if paths.Err? {
        return Err(paths.error), [];
      }
      var ps := paths.value;
      var dir := Parent(ps.finalDest);
      if dir.None? {
        return Err(PathError(NoParentMessage)), [];
      }
      var io := fs.CreateDirectoryAll(dir.value);
      if io.IoErr? && io.kind != AlreadyExists {
        return Err(Io(io.kind)), [];
      }
      var d;
      d, progress := Download(fs, client(a.url.text), ps.tmpDest, a.sha256, a.url.text, sha);
      if d.Err? {
        return Err(d.error), progress;
      }
      r := Ok(ps);
    }

    method FinalizeArtifact(fs: FileSystem, ps: ArtifactPaths) returns (r: Result<(), Error>)
      modifies fs
      ensures Done(r, fs.files) == FinalizeOne(old(fs.files), fs.faults, ps)
    {
      var io := fs.RenameFile(ps.finalDest, ps.oldDest);
      if io.IoErr? && io.kind != NotFound {
        return Err(Io(io.kind));
      }
      io := fs.RenameFile(ps.tmpDest, ps.finalDest);
      if io.IoErr? {
        return Err(Io(io.kind));
      }
      r := Ok(());
    }

    method CancelArtifact(fs: FileSystem, ps: ArtifactPaths) returns (r: Result<(), Error>)
      modifies fs
      ensures Done(r, fs.files) == CancelOne(old(fs.files), fs.faults, ps)
    {
      var io := fs.RemoveFile(ps.tmpDest);
      r := if io.IoOk? then Ok(()) else Err(Io(io.kind));
    }

    method ReturnOldArtifact(fs: FileSystem, ps: ArtifactPaths) returns (r: Result<(), Error>)
      modifies fs
      ensures Done(r, fs.files) == ReturnOldOne(old(fs.files), fs.faults, ps)
    {
      var io := fs.RenameFile(ps.oldDest, ps.finalDest);
      r := if io.IoOk? then Ok(()) else Err(Io(io.kind));
    }

    method DeleteArtifact(fs: FileSystem, ps: ArtifactPaths) returns (r: Result<(), Error>)
      modifies fs
      ensures Done(r, fs.files) == DeleteFinalOne(old(fs.files), fs.faults, ps)
    {
      var io := fs.RemoveFile(ps.finalDest);
      r := if io.IoOk? then Ok(()) else Err(Io(io.kind));
    }

    method DeleteOldArtifacts(fs: FileSystem, fin: seq<ArtifactPaths>) returns (r: Result<(), Error>)
      modifies fs
      ensures Done(r, fs.files) == DeleteOldsFrom(old(fs.files), fs.faults, fin, 0)
    {
      var i := 0;
      while i < |fin|
        invariant i <= |fin|
        invariant DeleteOldsFrom(fs.files, fs.faults, fin, i) == DeleteOldsFrom(old(fs.files), fs.faults, fin, 0)
      {
        var io := fs.RemoveFile(fin[i].oldDest);
        if io.IoErr? {
          return Err(Io(io.kind));
        }
        i := i + 1;
      }
      r := Ok(());
    }

    method Download(fs: FileSystem, resp: HttpOutcome, dest: Path, checksum: string, url: string, sha: Bytes -> Bytes)
      returns (r: Result<(), Error>, progress: seq<Progress>)
      modifies fs
      ensures Fetched(r, fs.files, progress) == DownloadSpec(old(fs.files), fs.faults, resp, dest, checksum, url, sha)
    {
      progress := [];
      if resp.ConnectFailed? {
        return Err(Request(resp.detail)), [];
      }
      if !IsSuccess(resp.status) {
        return Err(Http(resp.status)), [];
      }
      var total := resp.contentLength.GetOr(0);
      var io := fs.CreateFile(dest);
      if io.IoErr? {
        return Err(Io(io.kind)), [];
      }
      var chunks := resp.chunks;
      var hashed: Bytes := [];
      var i := 0;
      while i < |chunks|
        invariant i <= |chunks|
        invariant fs.files == old(fs.files)[dest := Concat(chunks[..i])]
        invariant hashed == Concat(chunks[..i])
        invariant progress == ProgressOf(chunks[..i], total)
        invariant (WriteOp, dest) in fs.faults ==> i == 0
      {
        var w := fs.WriteAll(dest, chunks[i]);
        if w.IoErr? {
          assert chunks[..i] == [];
          return Err(Io(w.kind)), [];
        }
        ChunkStep(chunks, i, total);
        hashed := hashed + chunks[i];
        progress := progress + [Progress(|chunks[i]|, total)];
        i := i + 1;
      }
      assert chunks[..i] == chunks;
      if resp.streamError.Some? {
        return Err(Request(resp.streamError.value)), progress;
      }
      var actual := LowerHex(sha(hashed));
      if actual != ToLowerAscii(checksum) {
        var ignored := fs.RemoveFile(dest);
        return Err(Checksum(actual, checksum, url)), progress;
      }
      r := Ok(());
    }
  }
}
