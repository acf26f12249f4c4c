/**
 * The artifact file helpers shared by the download and removal engines: a delete
 * and a rename that report failures as artifact errors, optionally treating a
 * missing file as a soft outcome; the append-only error accumulator; and the
 * mapping of plain errors to artifact errors.
 */
module Artifacts {
  import opened Wrappers
  import opened StdPath
  import opened Errors
  import opened FileSystem

  /** An artifact file operation's outcome and the files afterwards. */
  datatype Attempt = Attempt(result: Result<bool, ArtifactError>, files: Files)

  /**
   * How `delete` and `rename` report a file operation: `Ok(true)` when it
   * happened, `Ok(false)` for a missing file when that is tolerated, otherwise an
   * artifact error naming the action and the file.
   */
  function Classify(io: IoResult, ignoreNonexistent: bool, action: ArtifactAction, path: Path): (r: Result<bool, ArtifactError>)
    ensures r == Ok(true) <==> io.IoOk?
    ensures r == Ok(false) <==> io.IoErr? && ignoreNonexistent && io.kind == NotFound
    ensures r.Err? ==> r.error == ArtifactError(action, Some(path), Io(io.kind))
  {
    match io
    case IoOk => Ok(true)
    case IoErr(kind) =>
      if ignoreNonexistent && kind == NotFound then Ok(false)
      else Err(NewArtifactError(action, path, Io(kind)))
  }

  /** `artifacts::delete` on the file map. */
  function DeleteSpec(files: Files, faults: Faults, path: Path, ignoreNonexistent: bool): (r: Attempt)
    ensures r.result == Ok(true) <==> (RemoveOp, path) !in faults && path in files
    ensures r.result == Ok(true) ==> r.files == files - {path}
    ensures r.result != Ok(true) ==> r.files == files
    ensures r.result.Err? <==>
      if (RemoveOp, path) in faults then !ignoreNonexistent || faults[(RemoveOp, path)] != NotFound
      else path !in files && !ignoreNonexistent
    ensures r.result.Err? ==> r.result.error.action == Delete && r.result.error.path == Some(path)
  {
    var step := RemoveStep(files, faults, path);
    Attempt(Classify(step.result, ignoreNonexistent, Delete, path), step.files)
  }

  /** `artifacts::rename` on the file map; a failure names the source file. */
  function RenameSpec(files: Files, faults: Faults, from: Path, to: Path, ignoreNonexistent: bool): (r: Attempt)
    ensures r.result == Ok(true) <==> (RenameOp, from) !in faults && from in files
    ensures r.result == Ok(true) ==> r.files == RenameStep(files, faults, from, to).files
    ensures r.result != Ok(true) ==> r.files == files
    ensures r.result.Err? <==>
      if (RenameOp, from) in faults then !ignoreNonexistent || faults[(RenameOp, from)] != NotFound
      else from !in files && !ignoreNonexistent
    ensures r.result.Err? ==> r.result.error.action == Rename && r.result.error.path == Some(from)
  {
    var step := RenameStep(files, faults, from, to);
    Attempt(Classify(step.result, ignoreNonexistent, Rename, from), step.files)
  }

  /** `artifacts::delete`. */
  method DeleteArtifactFile(fs: FileSystem, path: Path, ignoreNonexistent: bool) returns (r: Result<bool, ArtifactError>)
    modifies fs
    ensures Attempt(r, fs.files) == DeleteSpec(old(fs.files), fs.faults, path, ignoreNonexistent)
  {
    var io := fs.RemoveFile(path);
    r := Classify(io, ignoreNonexistent, Delete, path);
  }

  /** `artifacts::rename`. */
  method RenameArtifactFile(fs: FileSystem, from: Path, to: Path, ignoreNonexistent: bool) returns (r: Result<bool, ArtifactError>)
    modifies fs
    ensures Attempt(r, fs.files) == RenameSpec(old(fs.files), fs.faults, from, to, ignoreNonexistent)
  {
    var io := fs.RenameFile(from, to);
    r := Classify(io, ignoreNonexistent, Rename, from);
  }

  /** `ArtifactErrorVec`: artifact errors in the order they were pushed. */
  class ArtifactErrorVec {
    var errors: seq<ArtifactError>

    constructor()
      ensures errors == []
    {
      errors := [];
    }

    method Push(e: ArtifactError)
      modifies this
      ensures errors == old(errors) + [e]
      ensures !IsEmpty() && Len() == old(Len()) + 1
    {
      errors := errors + [e];
    }

    function IsEmpty(): (b: bool)
      reads this
      ensures b <==> Len() == 0
    {
      |errors| == 0
    }

    function Len(): (n: nat)
      reads this
      ensures n == |errors|
    {
      |errors|
    }

    /** `Display`: "[" + the element texts joined by ", " + "]". */
    function Text(): (s: string)
      reads this
      ensures s == "[]" <==> IsEmpty()
    {
      ErrorVecTextEmpty(errors);
      DescribeErrorVec(errors)
    }
  }

  /** `map_artifact_err`: an Ok value passes through, an error becomes the cause of an artifact error on `path`. */
  function MapArtifactErr<T>(r: Result<T, Error>, action: ArtifactAction, path: Path): (m: Result<T, ArtifactError>)
    ensures m.Ok? <==> r.Ok?
    ensures m.Ok? ==> m.value == r.value
    ensures m.Err? ==> m.error.action == action && m.error.path == Some(path) && m.error.source == r.error
  {
    match r
    case Ok(v) => Ok(v)
    case Err(e) => Err(NewArtifactError(action, path, e))
  }

  /** `map_pathless_artifact_err`: as `MapArtifactErr`, with no file named. */
  function MapPathlessArtifactErr<T>(r: Result<T, Error>, action: ArtifactAction): (m: Result<T, ArtifactError>)
    ensures m.Ok? <==> r.Ok?
    ensures m.Ok? ==> m.value == r.value
    ensures m.Err? ==> m.error.action == action && m.error.path == None && m.error.source == r.error
  {
    match r
    case Ok(v) => Ok(v)
    case Err(e) => Err(NewPathlessArtifactError(action, e))
  }
}
