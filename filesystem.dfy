/**
 * The part of the file system the artifact engines touch, as a map from path to
 * file contents. Every operation can be made to fail: a fault registered for an
 * (operation, path) pair makes that operation on that path fail with the given
 * error kind, before the file's existence is consulted. Without a fault, the
 * operations behave as on a POSIX file system: removing or renaming a missing
 * file fails with NotFound, a rename replaces an existing target, and creating a
 * file truncates it. Directories are not tracked; creating one only consults the
 * faults.
 */
module FileSystem {
  import opened StdPath
  import opened Errors

  type Byte = x: int | 0 <= x < 256
  type Bytes = seq<Byte>
  type Files = map<Path, Bytes>

  datatype FsOp = RemoveOp | RenameOp | CreateDirOp | CreateOp | WriteOp

  /** Injected failures: the error kind an operation on a path fails with. */
  type Faults = map<(FsOp, Path), IoKind>

  datatype IoResult = IoOk | IoErr(kind: IoKind)

  /** The outcome of one operation and the files afterwards. */
  datatype IoStep = IoStep(result: IoResult, files: Files)

  /** `fs::remove_file`. */
  function RemoveStep(files: Files, faults: Faults, p: Path): (r: IoStep)
    ensures r.result.IoOk? <==> (RemoveOp, p) !in faults && p in files
    ensures r.result.IoOk? ==> r.files == files - {p}
    ensures r.result.IoErr? ==> r.files == files
    ensures r.result.IoErr? && (RemoveOp, p) !in faults ==> r.result.kind == NotFound
  {
    if (RemoveOp, p) in faults then IoStep(IoErr(faults[(RemoveOp, p)]), files)
    else if p !in files then IoStep(IoErr(NotFound), files)
    else IoStep(IoOk, files - {p})
  }

  /** `fs::rename`: the contents move to `to`, replacing what was there. */
  function RenameStep(files: Files, faults: Faults, from: Path, to: Path): (r: IoStep)
    ensures r.result.IoOk? <==> (RenameOp, from) !in faults && from in files
    ensures r.result.IoOk? ==> to in r.files && r.files[to] == files[from]
    ensures r.result.IoOk? && from != to ==> from !in r.files
    ensures r.result.IoOk? ==> forall q :: q != from && q != to ==> (q in r.files <==> q in files)
    ensures r.result.IoErr? ==> r.files == files
    ensures r.result.IoErr? && (RenameOp, from) !in faults ==> r.result.kind == NotFound
  {
    if (RenameOp, from) in faults then IoStep(IoErr(faults[(RenameOp, from)]), files)
    else if from !in files then IoStep(IoErr(NotFound), files)
    else IoStep(IoOk, (files - {from})[to := files[from]])
  }

  /** `fs::create_dir_all`: directories are not tracked, so only an injected fault makes it fail. */
  function CreateDirStep(faults: Faults, dir: Path): (r: IoResult)
    ensures r.IoErr? <==> (CreateDirOp, dir) in faults
  {
    if (CreateDirOp, dir) in faults then IoErr(faults[(CreateDirOp, dir)]) else IoOk
  }

  /** `fs::File::create`: an empty file, replacing any existing one. */
  function CreateStep(files: Files, faults: Faults, p: Path): (r: IoStep)
    ensures r.result.IoOk? <==> (CreateOp, p) !in faults
    ensures r.result.IoOk? ==> r.files == files[p := []]
    ensures r.result.IoErr? ==> r.files == files
  {
    if (CreateOp, p) in faults then IoStep(IoErr(faults[(CreateOp, p)]), files)
    else IoStep(IoOk, files[p := []])
  }

  /** `write_all` on an open file: the chunk is appended. */
  function AppendStep(files: Files, faults: Faults, p: Path, chunk: Bytes): (r: IoStep)
    requires p in files
    ensures r.result.IoOk? <==> (WriteOp, p) !in faults
    ensures r.result.IoOk? ==> r.files == files[p := files[p] + chunk]
    ensures r.result.IoErr? ==> r.files == files
  {
    if (WriteOp, p) in faults then IoStep(IoErr(faults[(WriteOp, p)]), files)
    else IoStep(IoOk, files[p := files[p] + chunk])
  }

  /** Two file maps agree at `p`: same presence, same contents. */
  predicate SameAt(f: Files, g: Files, p: Path) {
    (p in f <==> p in g) && (p in f ==> f[p] == g[p])
  }

  /** Two file maps agree on every path of `s`. */
  predicate AgreeOn(f: Files, g: Files, s: set<Path>) {
    forall p :: p in s ==> SameAt(f, g, p)
  }

  lemma AgreeOnTrans(f: Files, g: Files, h: Files, s: set<Path>)
    requires AgreeOn(f, g, s) && AgreeOn(g, h, s)
    ensures AgreeOn(f, h, s)
  {
  }

  /** Renaming and removing touch only the paths they name. */
  lemma StepFrames(files: Files, faults: Faults, a: Path, b: Path)
    ensures forall q :: q != a && q != b ==> SameAt(RenameStep(files, faults, a, b).files, files, q)
    ensures forall q :: q != a ==> SameAt(RemoveStep(files, faults, a).files, files, q)
  {
  }

  /** What renaming and removing do on a set of paths they stay inside depends only on the files there. */
  lemma StepsCongruent(f: Files, g: Files, faults: Faults, a: Path, b: Path, s: set<Path>)
    requires a in s && b in s && AgreeOn(f, g, s)
    ensures RenameStep(f, faults, a, b).result == RenameStep(g, faults, a, b).result
    ensures AgreeOn(RenameStep(f, faults, a, b).files, RenameStep(g, faults, a, b).files, s)
    ensures RemoveStep(f, faults, a).result == RemoveStep(g, faults, a).result
    ensures AgreeOn(RemoveStep(f, faults, a).files, RemoveStep(g, faults, a).files, s)
  {
    assert SameAt(f, g, a) && SameAt(f, g, b);
  }

  /** The file system the engines run against: its files change, its faults are fixed. */
  class FileSystem {
    var files: Files
    const faults: Faults

    constructor(initial: Files, injected: Faults)
      ensures files == initial && faults == injected
    {
      files := initial;
      faults := injected;
    }

    method RemoveFile(p: Path) returns (r: IoResult)
      modifies this
      ensures IoStep(r, files) == RemoveStep(old(files), faults, p)
    {
      var step := RemoveStep(files, faults, p);
      files := step.files;
      r := step.result;
    }

    method RenameFile(from: Path, to: Path) returns (r: IoResult)
      modifies this
      ensures IoStep(r, files) == RenameStep(old(files), faults, from, to)
    {
      var step := RenameStep(files, faults, from, to);
      files := step.files;
      r := step.result;
    }

    method CreateDirectoryAll(dir: Path) returns (r: IoResult)
      ensures r == CreateDirStep(faults, dir)
    {
      r := CreateDirStep(faults, dir);
    }

    method CreateFile(p: Path) returns (r: IoResult)
      modifies this
      ensures IoStep(r, files) == CreateStep(old(files), faults, p)
    {
      var step := CreateStep(files, faults, p);
      files := step.files;
      r := step.result;
    }

    method WriteAll(p: Path, chunk: Bytes) returns (r: IoResult)
      requires p in files
      modifies this
      ensures IoStep(r, files) == AppendStep(old(files), faults, p, chunk)
    {
      var step := AppendStep(files, faults, p, chunk);
      files := step.files;
      r := step.result;
    }
  }
}
